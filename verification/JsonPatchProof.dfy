/** JSON Patch round trip: applying the generated patches, in order, to any document that means
    the same as `from` succeeds and yields a document that means the same as `to`.

    The proof first replaces pointer texts by token lists (Edits, ApplyEdits) and then argues on
    the maps the objects stand for. */
module JsonPatchProof {
  import opened Common
  import opened CStrings
  import opened SortSeq
  import opened JsonValue
  import opened JsonPointer
  import opened JsonPatch

  // ---------- Edits: patches with a token list instead of a pointer text ----------

  datatype Edit = Edit(op: string, tokens: seq<string>, value: Option<Json>)

  function Prepend(token: string, es: seq<Edit>): (r: seq<Edit>)
    ensures |r| == |es|
  {
    if es == [] then []
    else [Edit(es[0].op, [token] + es[0].tokens, es[0].value)] + Prepend(token, es[1..])
  }

  function Edits(from: Json, to: Json, cs: bool): seq<Edit>
    decreases from, 1, 0
  {
    if !SameType(from, to) then [Edit("replace", [], Some(to))]
    else match from
      case Number(_, _) => if from != to then [Edit("replace", [], Some(to))] else []
      case Str(_) => if from != to then [Edit("replace", [], Some(to))] else []
      case Array(xs) => ArrayEdits(xs, to.items, 0, cs)
      case Object(_) => ObjectEdits(from, Sort(from.members, cs), Sort(to.members, cs), cs)
      case _ => []
  }

  function ArrayEdits(xs: seq<Json>, ys: seq<Json>, i: nat, cs: bool): seq<Edit>
    requires i <= |xs| && i <= |ys|
    decreases xs, 0, |xs| - i
  {
    if i < |xs| && i < |ys| then
      Prepend(Decimal(i), Edits(xs[i], ys[i], cs)) + ArrayEdits(xs, ys, i + 1, cs)
    else RemoveEdits(i, |xs| - i) + AddEdits(ys[i..])
  }

  function RemoveEdits(index: nat, n: nat): seq<Edit> {
    if n == 0 then [] else [Edit("remove", [Decimal(index)], None)] + RemoveEdits(index, n - 1)
  }

  function AddEdits(ys: seq<Json>): seq<Edit> {
    if ys == [] then [] else [Edit("add", ["-"], Some(ys[0]))] + AddEdits(ys[1..])
  }

  function ObjectEdits(parent: Json, fs: seq<Member>, ts: seq<Member>, cs: bool): seq<Edit>
    requires parent.Object? && forall i :: 0 <= i < |fs| ==> fs[i] in parent.members
    decreases parent, 0, |fs| + |ts|
  {
    if fs == [] && ts == [] then []
    else
      var diff := Order(fs, ts, cs);
      if diff == 0 then
        Prepend(fs[0].key, Edits(fs[0].value, ts[0].value, cs)) + ObjectEdits(parent, fs[1..], ts[1..], cs)
      else if diff < 0 then
        [Edit("remove", [fs[0].key], None)] + ObjectEdits(parent, fs[1..], ts, cs)
      else
        [Edit("add", [ts[0].key], Some(ts[0].value))] + ObjectEdits(parent, fs, ts[1..], cs)
  }

  function Render(path: string, es: seq<Edit>): seq<Json> {
    if es == [] then []
    else [MakePatch(es[0].op, path + Join(es[0].tokens), es[0].value)] + Render(path, es[1..])
  }

  // ---------- What the theorem asks of the documents ----------

  /** Every member name is free of '/', '~' and NUL; every array is shorter than 2^32. */
  ghost predicate Plain(j: Json) {
    match j
    case Array(items) => |items| < SIZE_MODULUS && forall i :: 0 <= i < |items| ==> Plain(items[i])
    case Object(ms) => forall i :: 0 <= i < |ms| ==> Clean(ms[i].key) && Plain(ms[i].value)
    case _ => true
  }

  // ---------- Pointer texts are rendered tokens ----------

  lemma ExtendClean(path: string, token: string, stale: char)
    requires '\0' !in path && Clean(token)
    ensures Extend(path, token, stale) == path + "/" + token
    ensures '\0' !in path + "/" + token
  {
    EncodeClean(token, stale);
    CTextOfClean(path + "/" + token);
  }

  lemma {:induction false} RenderAppend(path: string, a: seq<Edit>, b: seq<Edit>)
    ensures Render(path, a + b) == Render(path, a) + Render(path, b)
  {
    if a == [] {
      assert a + b == b;
    } else {
      assert (a + b)[1..] == a[1..] + b;
      RenderAppend(path, a[1..], b);
    }
  }

  lemma {:induction false} RenderPrepend(path: string, token: string, es: seq<Edit>)
    ensures Render(path + "/" + token, es) == Render(path, Prepend(token, es))
  {
    if es != [] {
      RenderPrepend(path, token, es[1..]);
      var ts := es[0].tokens;
      assert ([token] + ts)[1..] == ts;
      assert path + "/" + token + Join(ts) == path + Join([token] + ts);
    }
  }

  lemma JoinOne(token: string)
    ensures Join([token]) == "/" + token
  {
    assert [token][1..] == [];
    assert Join([token]) == "/" + token + [];
  }

  lemma {:induction false} RenderRemoves(path: string, index: nat, n: nat, stale: char)
    requires '\0' !in path
    ensures RemoveTail(path, index, n, stale) == Render(path, RemoveEdits(index, n))
  {
    if n > 0 {
      DecimalIsClean(index);
      ExtendClean(path, Decimal(index), stale);
      JoinOne(Decimal(index));
      assert path + "/" + Decimal(index) == path + ("/" + Decimal(index));
      RenderRemoves(path, index, n - 1, stale);
    }
  }

  lemma {:induction false} RenderAdds(path: string, ys: seq<Json>, stale: char)
    requires '\0' !in path
    ensures AddTail(path, ys, stale) == Render(path, AddEdits(ys))
  {
    if ys != [] {
      ExtendClean(path, "-", stale);
      JoinOne("-");
      assert path + "/" + "-" == path + ("/" + "-");
      RenderAdds(path, ys[1..], stale);
    }
  }

  lemma {:induction false} CreateIsRender(path: string, from: Json, to: Json, cs: bool, stale: char)
    requires '\0' !in path && Plain(from) && Plain(to)
    ensures CreatePatches(path, from, to, cs, stale) == Render(path, Edits(from, to, cs))
    decreases from, 1, 0
  {
    assert path + [] == path;
    if SameType(from, to) {
      match from
      case Array(xs) => ArrayIsRender(path, xs, to.items, 0, cs, stale);
      case Object(_) => ObjectIsRender(path, from, Sort(from.members, cs), Sort(to.members, cs), cs, stale);
      case _ =>
    }
  }

  lemma {:induction false} ArrayIsRender(path: string, xs: seq<Json>, ys: seq<Json>, i: nat, cs: bool, stale: char)
    requires '\0' !in path && i <= |xs| && i <= |ys|
    requires forall k :: 0 <= k < |xs| ==> Plain(xs[k])
    requires forall k :: 0 <= k < |ys| ==> Plain(ys[k])
    ensures ArrayPatches(path, xs, ys, i, cs, stale) == Render(path, ArrayEdits(xs, ys, i, cs))
    decreases xs, 0, |xs| - i
  {
    hide CreatePatches, Edits, Render, Decimal, Prepend, RemoveEdits, AddEdits, Plain;
    if i < |xs| && i < |ys| {
      var es := Edits(xs[i], ys[i], cs);
      DecimalIsClean(i);
      CreateIsRender(path + "/" + Decimal(i), xs[i], ys[i], cs, stale);
      RenderPrepend(path, Decimal(i), es);
      ArrayIsRender(path, xs, ys, i + 1, cs, stale);
      RenderAppend(path, Prepend(Decimal(i), es), ArrayEdits(xs, ys, i + 1, cs));
      assert ArrayEdits(xs, ys, i, cs) == Prepend(Decimal(i), es) + ArrayEdits(xs, ys, i + 1, cs);
      assert ArrayPatches(path, xs, ys, i, cs, stale) ==
             CreatePatches(path + "/" + Decimal(i), xs[i], ys[i], cs, stale) + ArrayPatches(path, xs, ys, i + 1, cs,
                 stale);
    } else {
      RenderRemoves(path, i, |xs| - i, stale);
      RenderAdds(path, ys[i..], stale);
      RenderAppend(path, RemoveEdits(i, |xs| - i), AddEdits(ys[i..]));
    }
  }

  lemma {:induction false} ObjectIsRender(path: string, parent: Json, fs: seq<Member>, ts: seq<Member>, cs: bool,
        stale: char)
    requires '\0' !in path && parent.Object?
    requires forall i :: 0 <= i < |fs| ==> fs[i] in parent.members && Clean(fs[i].key) && Plain(fs[i].value)
    requires forall i :: 0 <= i < |ts| ==> Clean(ts[i].key) && Plain(ts[i].value)
    ensures ObjectPatches(path, parent, fs, ts, cs, stale) == Render(path, ObjectEdits(parent, fs, ts, cs))
    decreases parent, 0, |fs| + |ts|
  {
    if fs != [] || ts != [] {
      var diff := Order(fs, ts, cs);
      if diff == 0 {
        var es := Edits(fs[0].value, ts[0].value, cs);
        ExtendClean(path, fs[0].key, stale);
        CreateIsRender(path + "/" + fs[0].key, fs[0].value, ts[0].value, cs, stale);
        RenderPrepend(path, fs[0].key, es);
        ObjectIsRender(path, parent, fs[1..], ts[1..], cs, stale);
        RenderAppend(path, Prepend(fs[0].key, es), ObjectEdits(parent, fs[1..], ts[1..], cs));
      } else {
        var token := if diff < 0 then fs[0].key else ts[0].key;
        ExtendClean(path, token, stale);
        JoinOne(token);
        assert path + "/" + token == path + ("/" + token);
        if diff < 0 {
          ObjectIsRender(path, parent, fs[1..], ts, cs, stale);
        } else {
          ObjectIsRender(path, parent, fs, ts[1..], cs, stale);
        }
      }
    }
  }

  // ---------- Applying edits ----------

  function LeafEdit(j: Json, op: string, token: string, value: Option<Json>, cs: bool): Option<Json> {
    if op == "remove" then
      match DetachChild(j, token)
      case None => None
      case Some((rest, _)) => Some(rest)
    else if value.None? then None
    else if op == "replace" then
      match DetachChild(j, token)
      case None => None
      case Some((rest, _)) => Added(AddChild(rest, token, value.value, cs))
    else if op == "add" then Added(AddChild(j, token, value.value, cs))
    else None
  }

  function Added(o: Outcome): Option<Json> { if o.Done? then Some(o.tree) else None }

  function ApplyEdit(j: Json, e: Edit, cs: bool): Option<Json>
    decreases |e.tokens|
  {
    if e.tokens == [] then (if e.op == "replace" then e.value else None)
    else if |e.tokens| == 1 then LeafEdit(j, e.op, e.tokens[0], e.value, cs)
    else
      match Step(j, e.tokens[0], cs)
      case None => None
      case Some(i) =>
        match ApplyEdit(Child(j, i), e.(tokens := e.tokens[1..]), cs)
        case None => None
        case Some(x) => Some(WithChild(j, i, x))
  }

  function ApplyEdits(j: Json, es: seq<Edit>, cs: bool): Option<Json>
    decreases |es|
  {
    if es == [] then Some(j)
    else
      match ApplyEdit(j, es[0], cs)
      case None => None
      case Some(r) => ApplyEdits(r, es[1..], cs)
  }

  lemma {:induction false} ApplyEditsAppend(j: Json, a: seq<Edit>, b: seq<Edit>, cs: bool)
    requires ApplyEdits(j, a, cs).Some?
    ensures ApplyEdits(j, a + b, cs) == ApplyEdits(ApplyEdits(j, a, cs).value, b, cs)
    decreases |a|
  {
    if a == [] {
      assert a + b == b;
    } else {
      assert (a + b)[1..] == a[1..] + b;
      ApplyEditsAppend(ApplyEdit(j, a[0], cs).value, a[1..], b, cs);
    }
  }

  /** A deep edit changes the parent of its last token and nothing else. */
  lemma {:induction false} EditIsPut(j: Json, e: Edit, init: seq<string>, last: string, cs: bool)
    requires e.tokens == init + [last] && ApplyEdit(j, e, cs).Some?
    ensures LocateTokens(j, init, cs).Some?
    ensures var at := LocateTokens(j, init, cs).value;
            LeafEdit(Get(j, at), e.op, last, e.value, cs).Some? &&
            ApplyEdit(j, e, cs).value == Put(j, at, LeafEdit(Get(j, at), e.op, last, e.value, cs).value)
    decreases |init|
  {
    if init == [] {
      assert e.tokens == [last];
    } else {
      var i := Step(j, init[0], cs).value;
      assert e.tokens[0] == init[0] && e.tokens[1..] == init[1..] + [last];
      EditIsPut(Child(j, i), e.(tokens := e.tokens[1..]), init[1..], last, cs);
      var rest := LocateTokens(Child(j, i), init[1..], cs).value;
      assert ([i] + rest)[1..] == rest;
    }
  }

  lemma PatchFields(op: string, path: string, value: Option<Json>, cs: bool)
    ensures var p := MakePatch(op, path, value);
            GetObjectItem(p, "op", cs) == Some(Str(op)) &&
            GetObjectItem(p, "path", cs) == Some(Str(path)) &&
            GetObjectItem(p, "value", cs) == value
  {
    var ms := MakePatch(op, path, value).members;
    assert LowerAll("op") == "op" && LowerAll("path") == "path" && LowerAll("value") == "value";
    assert Norm(ms[0].key, cs) == "op" && Norm(ms[1].key, cs) == "path";
    assert |"op"| == 2 && |"path"| == 4 && |"value"| == 5;
    if value.Some? { assert Norm(ms[2].key, cs) == "value"; }
  }

  lemma DetachJoined(j: Json, init: seq<string>, last: string, cs: bool)
    requires AllClean(init) && Clean(last) && LocateTokens(j, init, cs).Some?
    ensures var at := LocateTokens(j, init, cs).value;
            DetachPath(j, Join(init + [last]), cs) ==
            match DetachChild(Get(j, at), last)
            case None => None
            case Some((rest, item)) => Some((Put(j, at, rest), item))
  {
    JoinAppend(init, last);
    SplitAppended(Join(init), last);
    LocateJoin(j, init, cs);
    DecodeClean(last);
  }

  lemma AddJoined(j: Json, init: seq<string>, last: string, value: Json, cs: bool)
    requires AllClean(init) && Clean(last) && LocateTokens(j, init, cs).Some?
    requires AddChild(Get(j, LocateTokens(j, init, cs).value), last, value, cs).Done?
    ensures var at := LocateTokens(j, init, cs).value;
            AddAtPath(j, Join(init + [last]), value, cs)
            == (Put(j, at, AddChild(Get(j, at), last, value, cs).tree), 0)
  {
    JoinAppend(init, last);
    SplitAppended(Join(init), last);
    LocateJoin(j, init, cs);
    DecodeClean(last);
  }

  /** Replacing at a path: detach, find the parent again, add. */
  lemma ReplaceJoined(j: Json, init: seq<string>, last: string, value: Json, cs: bool)
    requires AllClean(init) && Clean(last) && LocateTokens(j, init, cs).Some?
    requires LeafEdit(Get(j, LocateTokens(j, init, cs).value), "replace", last, Some(value), cs).Some?
    ensures var at := LocateTokens(j, init, cs).value;
            var detached := DetachPath(j, Join(init + [last]), cs);
            detached.Some? && AddAtPath(detached.value.0, Join(init + [last]), value, cs)
            == (Put(j, at, LeafEdit(Get(j, at), "replace", last, Some(value), cs).value), 0)
  {
    var at := LocateTokens(j, init, cs).value;
    DetachJoined(j, init, last, cs);
    var rest := DetachChild(Get(j, at), last).value.0;
    LocateAfterPut(j, init, rest, cs);
    GetAfterPut(j, at, rest);
    AddJoined(Put(j, at, rest), init, last, value, cs);
    PutTwice(j, at, rest, AddChild(rest, last, value, cs).tree);
  }

  lemma JoinNotEmpty(tokens: seq<string>)
    requires tokens != []
    ensures Join(tokens) != ""
  {
  }

  function OperationOf(op: string): Operation {
    if op == "add" then ADD else if op == "remove" then REMOVE else if op == "replace" then REPLACE else INVALID
  }

  lemma OperationRemoves(j: Json, e: Edit, init: seq<string>, last: string, source: Option<Json>, cs: bool)
    requires e.op == "remove" && e.tokens == init + [last] && AllClean(e.tokens) && ApplyEdit(j, e, cs).Some?
    ensures ApplyOperation(j, REMOVE, Join(e.tokens), e.value, source, cs) == (ApplyEdit(j, e, cs).value, 0)
  {
    hide Join, Get, View, AddAtPath, AddChild, LocateTokens, Put, DetachChild;
    assert AllClean(init) by { assert forall i :: 0 <= i < |init| ==> init[i] == e.tokens[i]; }
    assert Clean(last) by { assert e.tokens[|init|] == last; }
    JoinNotEmpty(e.tokens);
    EditIsPut(j, e, init, last, cs);
    DetachJoined(j, init, last, cs);
  }

  lemma OperationReplaces(j: Json, e: Edit, init: seq<string>, last: string, source: Option<Json>, cs: bool)
    requires e.op == "replace" && e.tokens == init + [last] && AllClean(e.tokens) && ApplyEdit(j, e, cs).Some?
    ensures ApplyOperation(j, REPLACE, Join(e.tokens), e.value, source, cs) == (ApplyEdit(j, e, cs).value, 0)
  {
    hide ApplyEdit, Join, Clean;
    assert AllClean(init) by { assert forall i :: 0 <= i < |init| ==> init[i] == e.tokens[i]; }
    assert Clean(last) by { assert e.tokens[|init|] == last; }
    JoinNotEmpty(e.tokens);
    EditIsPut(j, e, init, last, cs);
    ReplaceJoined(j, init, last, e.value.value, cs);
  }

  lemma OperationAdds(j: Json, e: Edit, init: seq<string>, last: string, source: Option<Json>, cs: bool)
    requires e.op == "add" && e.tokens == init + [last] && AllClean(e.tokens) && ApplyEdit(j, e, cs).Some?
    ensures ApplyOperation(j, ADD, Join(e.tokens), e.value, source, cs) == (ApplyEdit(j, e, cs).value, 0)
  {
    hide Join, Get, View, AddAtPath, AddChild;
    hide ApplyEdit;
    assert AllClean(init) by { assert forall i :: 0 <= i < |init| ==> init[i] == e.tokens[i]; }
    assert Clean(last) by { assert e.tokens[|init|] == last; }
    JoinNotEmpty(e.tokens);
    EditIsPut(j, e, init, last, cs);
    AddJoined(j, init, last, e.value.value, cs);
  }

  lemma OperationEdits(j: Json, e: Edit, source: Option<Json>, cs: bool)
    requires OperationOf(e.op) != INVALID && AllClean(e.tokens) && ApplyEdit(j, e, cs).Some?
    ensures ApplyOperation(j, OperationOf(e.op), Join(e.tokens), e.value, source, cs) == (ApplyEdit(j, e, cs).value, 0)
  {
    if e.tokens != [] {
      var init, last := e.tokens[..|e.tokens| - 1], e.tokens[|e.tokens| - 1];
      assert e.tokens == init + [last];
      if e.op == "remove" {
        OperationRemoves(j, e, init, last, source, cs);
      } else if e.op == "replace" {
        OperationReplaces(j, e, init, last, source, cs);
      } else {
        OperationAdds(j, e, init, last, source, cs);
      }
    }
  }

  /** apply_patch on a rendered edit does what the edit does, with status 0. */
  lemma ApplyRendered(j: Json, e: Edit, cs: bool)
    requires OperationOf(e.op) != INVALID && AllClean(e.tokens) && ApplyEdit(j, e, cs).Some?
    ensures ApplyPatch(j, MakePatch(e.op, Join(e.tokens), e.value), cs) == (ApplyEdit(j, e, cs).value, 0)
  {
    hide ApplyEdit, ApplyEdits, ApplyOperation, Join, Clean, Render;
    PatchFields(e.op, Join(e.tokens), e.value, cs);
    OperationEdits(j, e, GetObjectItem(MakePatch(e.op, Join(e.tokens), e.value), "from", cs), cs);
  }

  ghost predicate GoodEdit(e: Edit) {
    OperationOf(e.op) != INVALID && AllClean(e.tokens)
  }

  lemma {:induction false} ApplyAllRendered(j: Json, es: seq<Edit>, cs: bool)
    requires forall i :: 0 <= i < |es| ==> GoodEdit(es[i])
    requires ApplyEdits(j, es, cs).Some?
    ensures ApplyAll(j, Render("", es), cs) == (ApplyEdits(j, es, cs).value, 0)
    decreases |es|
  {
    if es != [] {
      assert "" + Join(es[0].tokens) == Join(es[0].tokens);
      ApplyRendered(j, es[0], cs);
      ApplyAllRendered(ApplyEdit(j, es[0], cs).value, es[1..], cs);
    }
  }

  lemma {:induction false} PrependGood(token: string, es: seq<Edit>)
    requires Clean(token) && forall i :: 0 <= i < |es| ==> GoodEdit(es[i])
    ensures forall i :: 0 <= i < |es| ==>
      GoodEdit(Prepend(token, es)[i]) && Prepend(token, es)[i].tokens == [token] + es[i].tokens
  {
    if es != [] { PrependGood(token, es[1..]); }
  }

  /** Generated edits are clean, and address the root only as one single replacement. */
  lemma {:induction false} EditsShape(from: Json, to: Json, cs: bool)
    requires Plain(from) && Plain(to)
    ensures forall i :: 0 <= i < |Edits(from, to, cs)| ==> GoodEdit(Edits(from, to, cs)[i])
    ensures Edits(from, to, cs) == [Edit("replace", [], Some(to))] || Deep(Edits(from, to, cs))
    decreases from, 1, 0
  {
    if SameType(from, to) {
      match from
      case Array(xs) => ArrayShape(xs, to.items, 0, cs);
      case Object(_) => ObjectShape(from, Sort(from.members, cs), Sort(to.members, cs), cs);
      case _ =>
    }
  }

  ghost predicate Deep(es: seq<Edit>) { forall i :: 0 <= i < |es| ==> es[i].tokens != [] }

  lemma {:induction false} TailShape(index: nat, n: nat, ys: seq<Json>)
    ensures forall i :: 0 <= i < |RemoveEdits(index, n)| ==> GoodEdit(RemoveEdits(index, n)[i])
    ensures forall i :: 0 <= i < |AddEdits(ys)| ==> GoodEdit(AddEdits(ys)[i])
    ensures Deep(RemoveEdits(index, n)) && Deep(AddEdits(ys))
    decreases n + |ys|
  {
    DecimalIsClean(index);
    if n > 0 { TailShape(index, n - 1, ys); }
    if ys != [] { TailShape(index, n, ys[1..]); }
  }

  lemma {:induction false} ArrayShape(xs: seq<Json>, ys: seq<Json>, i: nat, cs: bool)
    requires i <= |xs| && i <= |ys|
    requires forall k :: 0 <= k < |xs| ==> Plain(xs[k])
    requires forall k :: 0 <= k < |ys| ==> Plain(ys[k])
    ensures forall k :: 0 <= k < |ArrayEdits(xs, ys, i, cs)| ==> GoodEdit(ArrayEdits(xs, ys, i, cs)[k])
    ensures Deep(ArrayEdits(xs, ys, i, cs))
    decreases xs, 0, |xs| - i
  {
    if i < |xs| && i < |ys| {
      DecimalIsClean(i);
      EditsShape(xs[i], ys[i], cs);
      PrependGood(Decimal(i), Edits(xs[i], ys[i], cs));
      ArrayShape(xs, ys, i + 1, cs);
    } else {
      TailShape(i, |xs| - i, ys[i..]);
    }
  }

  lemma {:induction false} ObjectShape(parent: Json, fs: seq<Member>, ts: seq<Member>, cs: bool)
    requires parent.Object?
    requires forall i :: 0 <= i < |fs| ==> fs[i] in parent.members && Clean(fs[i].key) && Plain(fs[i].value)
    requires forall i :: 0 <= i < |ts| ==> Clean(ts[i].key) && Plain(ts[i].value)
    ensures var es := ObjectEdits(parent, fs, ts, cs);
            Deep(es) && forall i :: 0 <= i < |es| ==> GoodEdit(es[i])
    decreases parent, 0, |fs| + |ts|
  {
    if fs != [] || ts != [] {
      var diff := Order(fs, ts, cs);
      if diff == 0 {
        EditsShape(fs[0].value, ts[0].value, cs);
        PrependGood(fs[0].key, Edits(fs[0].value, ts[0].value, cs));
        ObjectShape(parent, fs[1..], ts[1..], cs);
      } else if diff < 0 {
        ObjectShape(parent, fs[1..], ts, cs);
      } else {
        ObjectShape(parent, fs, ts[1..], cs);
      }
    }
  }

  /** Deep edits of a child act on the child and leave the rest of the parent alone. */
  lemma {:induction false} LiftEdits(j: Json, token: string, i: nat, es: seq<Edit>, cs: bool)
    requires HasChild(j, i) && Step(j, token, cs) == Some(i)
    requires Deep(es) && ApplyEdits(Child(j, i), es, cs).Some?
    ensures ApplyEdits(j, Prepend(token, es), cs)
            == Some(WithChild(j, i, ApplyEdits(Child(j, i), es, cs).value))
    decreases |es|
  {
    if es == [] {
      assert WithChild(j, i, Child(j, i)) == j by {
        if j.Array? { assert j.items[i := j.items[i]] == j.items; }
        else { assert j.members[i := Keyed(j.members[i].key, j.members[i].value)] == j.members; }
      }
    } else {
      var e := Prepend(token, es)[0];
      assert e.tokens[0] == token && e.tokens[1..] == es[0].tokens;
      assert e.(tokens := e.tokens[1..]) == es[0];
      var x := ApplyEdit(Child(j, i), es[0], cs).value;
      var k := WithChild(j, i, x);
      assert ApplyEdit(j, e, cs) == Some(k);
      StepAfterWithChild(j, token, i, x, cs);
      LiftEdits(k, token, i, es[1..], cs);
      var y := ApplyEdits(x, es[1..], cs).value;
      assert WithChild(k, i, y) == WithChild(j, i, y) by {
        if j.Array? { assert j.items[i := x][i := y] == j.items[i := y]; }
        else {
          var key := j.members[i].key;
          assert j.members[i := Keyed(key, x)][i := Keyed(key, y)] == j.members[i := Keyed(key, y)];
        }
      }
    }
  }
}
