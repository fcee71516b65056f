/** Where the patch round trip stops holding, exactly: names that the pointer escaping garbles, and
    the case-insensitive detach inside the case-sensitive mode. */
module JsonPatchLimits {
  import opened Common
  import opened CStrings
  import opened SortSeq
  import opened JsonValue
  import opened JsonPointer
  import opened JsonPatch
  import opened JsonPatchProof
  import opened JsonPatchRoundTrip

  lemma EncodedPath(name: string, stale: char)
    requires stale != '/'
    ensures '/' !in CText(EncodeAsPointer(name, stale))
    ensures Extend("", name, stale) == "/" + CText(EncodeAsPointer(name, stale))
  {
    var text := EncodeAsPointer(name, stale);
    EncodeNotShorter(name, stale);
    CTextKeepsAbsent(text, '/');
    assert "" + "/" + text == "/" + text;
    assert ("/" + text)[1..] == text;
  }

  lemma SingleRemoval(name: string, x: Json, cs: bool, stale: char)
    ensures CreatePatches("", Object([Keyed(name, x)]), Object([]), cs, stale)
            == [MakePatch("remove", Extend("", name, stale), None)]
  {
    var from := Object([Keyed(name, x)]);
    var fs: seq<Member> := Sort([Keyed(name, x)], cs);
    var ts: seq<Member> := Sort([], cs);
    assert fs == [Keyed(name, x)] && ts == [] && fs[1..] == [];
    assert ObjectPatches("", from, [], [], cs, stale) == [];
  }

  lemma DetachAtRoot(doc: Json, text: string, cs: bool)
    requires '/' !in text
    ensures DetachPath(doc, "/" + text, cs) == DetachChild(doc, DecodePointer(text))
  {
    SplitAppended("", text);
    assert "" + "/" + text == "/" + text;
    assert Locate(doc, "", cs) == Some([]);
  }

  lemma RemoveAtRoot(doc: Json, text: string, cs: bool)
    requires '/' !in text
    ensures ApplyAll(doc, [MakePatch("remove", "/" + text, None)], cs) ==
            match DetachChild(doc, DecodePointer(text))
            case None => (doc, 13)
            case Some((rest, _)) => (rest, 0)
  {
    hide GetObjectItem, MakePatch;
    var path := "/" + text;
    var patch := MakePatch("remove", path, None);
    PatchFields("remove", path, None, cs);
    DetachAtRoot(doc, text, cs);
    assert ApplyPatch(doc, patch, cs) == ApplyOperation(doc, REMOVE, path, None, GetObjectItem(patch, "from", cs), cs);
    assert [patch][1..] == [];
  }

  lemma DetachOnly(name: string, x: Json, token: string)
    ensures DetachChild(Object([Keyed(name, x)]), token) ==
            if LowerAll(name) == LowerAll(token) then Some((Object([]), x)) else None
  {
    var ms: seq<Member> := [Keyed(name, x)];
    assert Norm(ms[0].key, false) == LowerAll(name) && Norm(token, false) == LowerAll(token);
    assert RemoveAt(ms, 0) == [];
  }

  lemma LowerKeepsSlash(a: string, b: string)
    requires LowerAll(a) == LowerAll(b) && '/' in a
    ensures '/' in b
  {
    var k :| 0 <= k < |a| && a[k] == '/';
    assert Lower(b[k]) == LowerAll(b)[k] == LowerAll(a)[k] == '/';
    assert b[k] == '/';
  }

  /** Deleting the only member of an object by its generated patch succeeds exactly when the name
      has no '/', and '~' at most as its last character; the byte that the escaping leaves unwritten
      is neither of the two. */
  lemma RemovalWorksIff(name: string, x: Json, cs: bool, stale: char)
    requires '\0' !in name && stale != '~' && stale != '/'
    ensures var doc := Object([Keyed(name, x)]);
            var (r, status) := ApplyAll(doc, CreatePatches("", doc, Object([]), cs, stale), cs);
            (status == 0 <==> '/' !in name && TildeOnlyLast(name)) &&
            (status == 0 ==> r == Object([])) && (status != 0 ==> r == doc)
  {
    var doc := Object([Keyed(name, x)]);
    var text := CText(EncodeAsPointer(name, stale));
    SingleRemoval(name, x, cs, stale);
    EncodedPath(name, stale);
    RemoveAtRoot(doc, text, cs);
    NameSurvivesIff(name, stale);
    DetachOnly(name, x, DecodePointer(text));
    if LowerAll(DecodePointer(text)) == LowerAll(name) {
      assert |DecodePointer(text)| == |LowerAll(name)| == |name|;
      if '/' !in name && !TildeOnlyLast(name) {
        EncodeNotShorter(name, stale);
        CTextOfClean(EncodeAsPointer(name, stale));
        EscapeSurvivesIff(name, stale);
        LowerKeepsSlash(DecodePointer(text), name);
      }
    }
  }

  /** The mode flag does not reach detach_path: a case-sensitive patch deletes the member it names
      exactly when no member ahead of it has that name up to case. */
  lemma SensitiveRemovalIff(ms: seq<Member>, name: string)
    requires DistinctKeys(ms, true) && Clean(name) && FindIndex(ms, name, true) < |ms|
    ensures var (r, status) := ApplyAll(Object(ms), [MakePatch("remove", "/" + name, None)], true);
            status == 0 && r.Object? &&
            (ViewMembers(r.members, true) == ViewMembers(ms, true) - {name} <==>
             forall j :: 0 <= j < FindIndex(ms, name, true) ==> LowerAll(ms[j].key) != LowerAll(name))
  {
    hide ViewMembers, ApplyAll, DecodePointer, MakePatch, FindIndex;
    RemoveAtRoot(Object(ms), name, true);
    DecodeClean(name);
    var k, i := FindIndex(ms, name, true), FindIndex(ms, name, false);
    assert ms[k].key == name;
    assert Norm(ms[k].key, false) == Norm(name, false);
    assert i <= k;
    ViewRemoveAt(ms, i, true);
    ViewKeys(ms, true, name);
    ViewKeys(ms, true, ms[i].key);
    assert Norm(ms[k].key, true) == name && Norm(ms[i].key, true) == ms[i].key;
    assert i < k ==> ms[i].key != name;
    assert i < k ==> LowerAll(ms[i].key) == LowerAll(name);
    var v := ViewMembers(ms, true);
    assert ms[i].key in v && name in v;
    assert v - {ms[i].key} == v - {name} <==> ms[i].key == name by {
      assert ms[i].key != name ==> name in v - {ms[i].key} && name !in v - {name};
    }
  }

  /** Such an object: the patch that should delete "a" deletes "A". */
  lemma SensitiveRemovalHitsWrongMember(x: Json, y: Json)
    ensures var doc := Object([Keyed("A", x), Keyed("a", y)]);
            ApplyAll(doc, [MakePatch("remove", "/a", None)], true) == (Object([Keyed("a", y)]), 0)
  {
    var ms: seq<Member> := [Keyed("A", x), Keyed("a", y)];
    assert "/" + "a" == "/a";
    RemoveAtRoot(Object(ms), "a", true);
    DecodeClean("a");
    assert LowerAll("A") == "a" == LowerAll("a");
    assert Norm(ms[0].key, false) == "a";
    assert FindIndex(ms, "a", false) == 0;
    assert RemoveAt(ms, 0) == [Keyed("a", y)];
  }

  // ---------- Additions ----------

  /** Adding a member by its generated patch always reports success; what is stored has the name that
      survives the escaping, which is another one exactly for the names that do not survive. */
  lemma AdditionStores(name: string, x: Json, cs: bool, stale: char)
    requires '\0' !in name && stale != '~' && stale != '/'
    ensures var stored := DecodePointer(CText(EncodeAsPointer(name, stale)));
            ApplyAll(Object([]), CreatePatches("", Object([]), Object([Keyed(name, x)]), cs, stale), cs)
            == (Object([Keyed(stored, x)]), 0) &&
            (stored == name <==> '/' !in name && TildeOnlyLast(name))
  {
    var text := CText(EncodeAsPointer(name, stale));
    SingleAddition(name, x, cs, stale);
    EncodedPath(name, stale);
    AddAtRoot(text, x, cs);
    NameSurvivesIff(name, stale);
  }

  lemma SingleAddition(name: string, x: Json, cs: bool, stale: char)
    ensures CreatePatches("", Object([]), Object([Keyed(name, x)]), cs, stale)
            == [MakePatch("add", Extend("", name, stale), Some(x))]
  {
    var fs: seq<Member> := Sort([], cs);
    var ts: seq<Member> := Sort([Keyed(name, x)], cs);
    assert fs == [] && ts == [Keyed(name, x)] && ts[1..] == [];
    assert ObjectPatches("", Object([]), [], [], cs, stale) == [];
  }

  lemma AddAtRoot(text: string, x: Json, cs: bool)
    requires '/' !in text
    ensures ApplyAll(Object([]), [MakePatch("add", "/" + text, Some(x))], cs)
         == (Object([Keyed(DecodePointer(text), x)]), 0)
  {
    hide GetObjectItem, MakePatch;
    var path := "/" + text;
    var patch := MakePatch("add", path, Some(x));
    PatchFields("add", path, Some(x), cs);
    SplitAppended("", text);
    assert "" + "/" + text == path;
    assert Locate(Object([]), "", cs) == Some([]);
    var none: seq<Member>, m: Member := [], Keyed(DecodePointer(text), x);
    assert RemoveFirst(none, m.key, cs) + [m] == [m];
    assert AddChild(Object([]), DecodePointer(text), x, cs) == Done(Object([Keyed(DecodePointer(text), x)]));
    assert Put(Object([]), [], Object([Keyed(DecodePointer(text), x)])) == Object([Keyed(DecodePointer(text), x)]);
    assert AddAtPath(Object([]), path, x, cs) == (Object([Keyed(DecodePointer(text), x)]), 0);
    assert [patch][1..] == [];
  }

  // ---------- Names inside a path ----------

  /** Deleting a member of a member: the outer name is compared with its escaped form, which it
      matches only without '~'; the inner one is decoded as before. */
  lemma NestedRemovalWorksIff(outer: string, inner: string, x: Json, cs: bool, stale: char)
    requires '/' !in outer && '\0' !in outer && '\0' !in inner && stale != '~' && stale != '/'
    ensures var doc, to := Object([Keyed(outer, Object([Keyed(inner, x)]))]), Object([Keyed(outer, Object([]))]);
            var (r, status) := ApplyAll(doc, CreatePatches("", doc, to, cs, stale), cs);
            (status == 0 <==> '~' !in outer && '/' !in inner && TildeOnlyLast(inner)) &&
            (status == 0 ==> r == to) && (status != 0 ==> r == doc)
  {
    hide ApplyAll, DetachChild, TildeOnlyLast, LocateTokens;
    var doc, to := Object([Keyed(outer, Object([Keyed(inner, x)]))]), Object([Keyed(outer, Object([]))]);
    var head, text := "/" + EncodeAsPointer(outer, stale), CText(EncodeAsPointer(inner, stale));
    NestedRemoval(outer, inner, x, cs, stale);
    EncodedPath(inner, stale);
    NestedApplies(doc, head, text, cs);
    OuterIsFoundIff(outer, Object([Keyed(inner, x)]), cs, stale);
    InnerIsFoundIff(inner, x, stale);
  }

  lemma NestedRemoval(outer: string, inner: string, x: Json, cs: bool, stale: char)
    requires '/' !in outer && '\0' !in outer
    ensures var from, to := Object([Keyed(outer, Object([Keyed(inner, x)]))]), Object([Keyed(outer, Object([]))]);
            var path := "/" + EncodeAsPointer(outer, stale) + "/" + CText(EncodeAsPointer(inner, stale));
            CreatePatches("", from, to, cs, stale) == [MakePatch("remove", path, None)]
  {
    hide MakePatch, EncodeAsPointer;
    var head, text := "/" + EncodeAsPointer(outer, stale), EncodeAsPointer(inner, stale);
    var f, t: Member := Keyed(outer, Object([Keyed(inner, x)])), Keyed(outer, Object([]));
    EncodeNotShorter(outer, stale);
    assert "" + "/" + EncodeAsPointer(outer, stale) == head;
    CTextOfClean(head);
    assert Extend("", outer, stale) == head;
    CTextBehind(head + "/", text);
    assert Extend(head, inner, stale) == head + "/" + CText(text);
    RemovalAt(head, inner, x, cs, stale);
    assert Sort([f], cs) == [f] && Sort([t], cs) == [t] && [f][1..] == [] && [t][1..] == [];
    CompareZero(outer, outer, cs);
    assert ObjectPatches("", Object([f]), [], [], cs, stale) == [];
    assert ObjectPatches("", Object([f]), [f], [t], cs, stale) == CreatePatches(head, f.value, t.value, cs, stale) + [];
  }

  lemma RemovalAt(path: string, name: string, x: Json, cs: bool, stale: char)
    ensures CreatePatches(path, Object([Keyed(name, x)]), Object([]), cs, stale)
            == [MakePatch("remove", Extend(path, name, stale), None)]
  {
    var from := Object([Keyed(name, x)]);
    var fs: seq<Member> := Sort([Keyed(name, x)], cs);
    var ts: seq<Member> := Sort([], cs);
    assert fs == [Keyed(name, x)] && ts == [] && fs[1..] == [];
    assert ObjectPatches(path, from, [], [], cs, stale) == [];
  }

  lemma {:induction false} CTextBehind(a: string, b: string)
    requires '\0' !in a
    ensures CText(a + b) == a + CText(b)
  {
    if a == [] {
      assert a + b == b;
    } else {
      assert (a + b)[1..] == a[1..] + b;
      CTextBehind(a[1..], b);
    }
  }

  lemma NestedApplies(doc: Json, head: string, text: string, cs: bool)
    requires head != "" && '/' !in text
    ensures ApplyAll(doc, [MakePatch("remove", head + "/" + text, None)], cs) ==
            match Locate(doc, head, cs)
            case None => (doc, 13)
            case Some(at) =>
              match DetachChild(Get(doc, at), DecodePointer(text))
              case None => (doc, 13)
              case Some((parent, _)) => (Put(doc, at, parent), 0)
  {
    hide GetObjectItem, MakePatch, Locate, Get, Put, DetachChild, DecodePointer;
    var path := head + "/" + text;
    var patch := MakePatch("remove", path, None);
    PatchFields("remove", path, None, cs);
    SplitAppended(head, text);
    assert ApplyPatch(doc, patch, cs) == ApplyOperation(doc, REMOVE, path, None, GetObjectItem(patch, "from", cs), cs);
    assert [patch][1..] == [];
  }

  lemma OuterIsFoundIff(outer: string, x: Json, cs: bool, stale: char)
    requires '/' !in outer
    ensures Locate(Object([Keyed(outer, x)]), "/" + EncodeAsPointer(outer, stale), cs)
            == if '~' !in outer then Some([0]) else None
  {
    hide ComparePointers, EncodeAsPointer, Lower;
    var doc, token := Object([Keyed(outer, x)]), EncodeAsPointer(outer, stale);
    EncodedNameMatchesIff(outer, stale, cs);
    EncodeNotShorter(outer, stale);
    SkipsAll(token);
    assert ("/" + token)[1..] == token;
    assert FindByPointer([Keyed(outer, x)], token, cs) == (if '~' !in outer then 0 else 1) by {
      assert [Keyed(outer, x)][1..] == [];
    }
    assert Locate(x, "", cs) == Some([]);
    assert [0] + [] == [0];
  }

  lemma {:induction false} SkipsAll(token: string)
    requires '/' !in token
    ensures SkipToken(token) == ""
  {
    if token != [] {
      assert token == [token[0]] + token[1..];
      SkipsAll(token[1..]);
    }
  }

  lemma InnerIsFoundIff(inner: string, x: Json, stale: char)
    requires '\0' !in inner && stale != '~' && stale != '/'
    ensures DetachChild(Object([Keyed(inner, x)]), DecodePointer(CText(EncodeAsPointer(inner, stale)))) ==
            if '/' !in inner && TildeOnlyLast(inner) then Some((Object([]), x)) else None
  {
    var text := CText(EncodeAsPointer(inner, stale));
    NameSurvivesIff(inner, stale);
    DetachOnly(inner, x, DecodePointer(text));
    if LowerAll(DecodePointer(text)) == LowerAll(inner) {
      assert |DecodePointer(text)| == |LowerAll(inner)| == |inner|;
      if '/' !in inner && !TildeOnlyLast(inner) {
        EncodeNotShorter(inner, stale);
        CTextOfClean(EncodeAsPointer(inner, stale));
        EscapeSurvivesIff(inner, stale);
        LowerKeepsSlash(DecodePointer(text), inner);
      }
    }
  }

  // ---------- Exactly which names ----------

  /** An array can have fewer than 2^32 elements. */
  ghost predicate SmallArrays(j: Json) {
    match j
    case Array(items) => |items| < SIZE_MODULUS && forall i :: 0 <= i < |items| ==> SmallArrays(items[i])
    case Object(ms) => forall i :: 0 <= i < |ms| ==> SmallArrays(ms[i].value)
    case _ => true
  }

  ghost predicate Admitted(doc: Json, from: Json, to: Json, names: set<string>, cs: bool) {
    NamesIn(doc, names) && NamesIn(from, names) && NamesIn(to, names) && SmallArrays(from) && SmallArrays(to) &&
    WellFormed(doc, cs) && WellFormed(from, cs) && WellFormed(to, cs) && View(doc, cs) == View(from, cs)
  }

  ghost predicate Restores(doc: Json, from: Json, to: Json, cs: bool, stale: char) {
    var (r, status) := ApplyAll(doc, CreatePatches("", from, to, cs, stale), cs);
    status == 0 && View(r, cs) == View(to, cs)
  }

  /** Names that need no escape, and in the case-sensitive mode differ in more than case. */
  ghost predicate Usable(names: set<string>, cs: bool) {
    (forall n :: n in names ==> '/' !in n && '~' !in n) &&
    (cs ==> forall a, b :: a in names && b in names && LowerAll(a) == LowerAll(b) ==> a == b)
  }

  lemma {:induction false} UsableIsPlain(j: Json, names: set<string>)
    requires NamesIn(j, names) && SmallArrays(j) && forall n :: n in names ==> Clean(n)
    ensures Plain(j)
  {
    match j
    case Array(items) =>
      forall i | 0 <= i < |items| ensures Plain(items[i]) { UsableIsPlain(items[i], names); }
    case Object(ms) =>
      forall i | 0 <= i < |ms| ensures Clean(ms[i].key) && Plain(ms[i].value) { UsableIsPlain(ms[i].value, names); }
    case _ =>
  }

  lemma {:induction false} UsableIsDistinct(j: Json, names: set<string>)
    requires NamesIn(j, names) && WellFormed(j, true)
    requires forall a, b :: a in names && b in names && LowerAll(a) == LowerAll(b) ==> a == b
    ensures WellFormed(j, false)
  {
    match j
    case Array(items) =>
      forall i | 0 <= i < |items| ensures WellFormed(items[i], false) { UsableIsDistinct(items[i], names); }
    case Object(ms) =>
      forall i | 0 <= i < |ms| ensures WellFormed(ms[i].value, false) { UsableIsDistinct(ms[i].value, names); }
    case _ =>
  }

  lemma UsableRestores(doc: Json, from: Json, to: Json, names: set<string>, cs: bool, stale: char)
    requires Usable(names, cs) && Admitted(doc, from, to, names, cs) && forall n :: n in names ==> '\0' !in n
    ensures Restores(doc, from, to, cs, stale)
  {
    forall n | n in names ensures Clean(n) { assert '/' !in n && '~' !in n; }
    UsableIsPlain(from, names);
    UsableIsPlain(to, names);
    if cs { UsableIsDistinct(doc, names); }
    PatchRoundTrip(doc, from, to, cs, stale);
  }

  /** A name that needs an escape is not restored when it goes, alone or out of a member so named. */
  lemma EscapeLoses(n: string, names: set<string>, cs: bool, stale: char) returns (from: Json, to: Json)
    requires n in names && ('/' in n || '~' in n) && '\0' !in n && stale != '~' && stale != '/'
    ensures Admitted(from, from, to, names, cs) && !Restores(from, from, to, cs, stale)
  {
    hide ApplyAll, CreatePatches, View, Norm;
    var ms: seq<Member> := [Keyed(n, True)];
    TruesAreOver(ms, names, cs);
    TruesAreOver([], names, cs);
    if '/' in n || !TildeOnlyLast(n) {
      from, to := Object(ms), Object([]);
      RemovalWorksIff(n, True, cs, stale);
    } else {
      from, to := Object([Keyed(n, Object(ms))]), Object([Keyed(n, Object([]))]);
      NestedRemovalWorksIff(n, n, True, cs, stale);
      AroundOne(n, Object(ms), names, cs);
      AroundOne(n, Object([]), names, cs);
    }
  }

  lemma TruesAreOver(ms: seq<Member>, names: set<string>, cs: bool)
    requires |ms| <= 2 && forall i :: 0 <= i < |ms| ==> ms[i].key in names && ms[i].value == True
    requires |ms| == 2 ==> Norm(ms[0].key, cs) != Norm(ms[1].key, cs)
    ensures WellFormed(Object(ms), cs) && NamesIn(Object(ms), names) && SmallArrays(Object(ms))
  {
    hide Norm;
    assert WellFormed(True, cs) && NamesIn(True, names) && SmallArrays(True);
  }

  lemma AroundOne(n: string, x: Json, names: set<string>, cs: bool)
    requires n in names && WellFormed(x, cs) && NamesIn(x, names) && SmallArrays(x)
    ensures WellFormed(Object([Keyed(n, x)]), cs) && NamesIn(Object([Keyed(n, x)]), names)
    ensures SmallArrays(Object([Keyed(n, x)]))
  {
  }

  /** Of two names that differ in case only, the second cannot be taken away. */
  lemma SpellingLoses(a: string, b: string, names: set<string>, stale: char) returns (from: Json, to: Json)
    requires a in names && b in names && LowerAll(a) == LowerAll(b) && Strcmp(a, b) < 0 && Clean(a) && Clean(b)
    ensures Admitted(from, from, to, names, true) && !Restores(from, from, to, true, stale)
  {
    hide ApplyAll, CreatePatches, DecodePointer, MakePatch, Sort;
    var x, y: Member := Keyed(a, True), Keyed(b, True);
    from, to := Object([x, y]), Object([x]);
    StrcmpZero(a, b);
    SecondRemoval(x, y, stale);
    assert FindIndex([x, y], b, true) == 1;
    assert LowerAll([x, y][0].key) == LowerAll(b);
    SensitiveRemovalIff([x, y], b);
    TruesAreOver([x, y], names, true);
    TruesAreOver([x], names, true);
    OneLess(x, y);
  }

  lemma SecondRemoval(x: Member, y: Member, stale: char)
    requires Strcmp(x.key, y.key) < 0 && x.value == True && Clean(y.key)
    ensures CreatePatches("", Object([x, y]), Object([x]), true, stale) == [MakePatch("remove", "/" + y.key, None)]
  {
    hide MakePatch;
    var from := Object([x, y]);
    assert AlreadySorted([x, y], true);
    assert Sort([x, y], true) == [x, y] && Sort([x], true) == [x];
    assert [x, y][1..] == [y] && [x][1..] == [] && [y][1..] == [];
    StrcmpZero(x.key, x.key);
    ExtendClean("", y.key, stale);
    assert "" + "/" + y.key == "/" + y.key;
    assert ObjectPatches("", from, [], [], true, stale) == [];
    assert ObjectPatches("", from, [y], [], true, stale) == [MakePatch("remove", "/" + y.key, None)];
    assert CreatePatches(Extend("", x.key, stale), x.value, x.value, true, stale) == [];
    assert ObjectPatches("", from, [x, y], [x], true, stale) == [] + ObjectPatches("", from, [y], [], true, stale);
  }

  lemma OneLess(x: Member, y: Member)
    requires x.key != y.key
    ensures ViewMembers([x], true) == ViewMembers([x, y], true) - {y.key}
  {
    assert [x, y][1..] == [y] && [x][1..] == [] && [y][1..] == [];
    assert ViewMembers([y], true) == map[y.key := View(y.value, true)];
    assert ViewMembers([x], true) == map[x.key := View(x.value, true)];
  }

  /** For trees over a set of names, the generated patches always restore `to` if and only if no name
      needs an escape and, in the case-sensitive mode, no two names differ in case only. */
  lemma PatchWorksIff(names: set<string>, cs: bool, stale: char)
    requires stale != '~' && stale != '/' && forall n :: n in names ==> '\0' !in n
    ensures (forall doc, from, to :: Admitted(doc, from, to, names, cs) ==> Restores(doc, from, to, cs, stale))
            <==> Usable(names, cs)
  {
    hide Admitted, Restores, LowerAll;
    if Usable(names, cs) {
      forall doc, from, to | Admitted(doc, from, to, names, cs) ensures Restores(doc, from, to, cs, stale) {
        UsableRestores(doc, from, to, names, cs, stale);
      }
    } else if n :| n in names && ('/' in n || '~' in n) {
      var from, to := EscapeLoses(n, names, cs, stale);
    } else {
      var a, b :| a in names && b in names && LowerAll(a) == LowerAll(b) && a != b;
      StrcmpZero(a, b);
      StrcmpAntisymmetric(a, b);
      var from, to;
      if Strcmp(a, b) < 0 {
        from, to := SpellingLoses(a, b, names, stale);
      } else {
        from, to := SpellingLoses(b, a, names, stale);
      }
    }
  }
}
