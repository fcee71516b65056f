/** JSON Patch (RFC 6902) as cJSON_Utils generates and applies it: create_patches and apply_patch
    on tree values, with the pointer texts, the status codes and the order of operations of the
    code.  `stale` is the byte the pointer encoder leaves unwritten in front of an escaped '/'. */
module JsonPatch {
  import opened Common
  import opened SortSeq
  import opened JsonValue
  import opened JsonCompare
  import opened JsonPointer

  // ---------- Generating ----------

  function MakePatch(op: string, path: string, value: Option<Json>): Json {
    Object([Keyed("op", Str(op)), Keyed("path", Str(path))] +
           if value.Some? then [Keyed("value", value.value)] else [])
  }

  function Extend(path: string, suffix: string, stale: char): string {
    CText(path + "/" + EncodeAsPointer(suffix, stale))
  }

  predicate SameType(a: Json, b: Json) {
    match a
    case Invalid => b.Invalid?
    case False => b.False?
    case True => b.True?
    case Null => b.Null?
    case Number(_, _) => b.Number?
    case Str(_) => b.Str?
    case Array(_) => b.Array?
    case Object(_) => b.Object?
  }

  /** compare_strings on the two current children, a missing one counting as larger. */
  function Order(fs: seq<Member>, ts: seq<Member>, cs: bool): int {
    if fs == [] then 1 else if ts == [] then -1 else Compare(fs[0], ts[0], cs)
  }

  function CreatePatches(path: string, from: Json, to: Json, cs: bool, stale: char): seq<Json>
    decreases from, 1, 0
  {
    if !SameType(from, to) then [MakePatch("replace", path, Some(to))]
    else match from
      case Number(_, _) => if from != to then [MakePatch("replace", path, Some(to))] else []
      case Str(_) => if from != to then [MakePatch("replace", path, Some(to))] else []
      case Array(xs) => ArrayPatches(path, xs, to.items, 0, cs, stale)
      case Object(_) => ObjectPatches(path, from, Sort(from.members, cs), Sort(to.members, cs), cs, stale)
      case _ => []
  }

  function ArrayPatches(path: string, xs: seq<Json>, ys: seq<Json>, i: nat, cs: bool, stale: char): seq<Json>
    requires i <= |xs| && i <= |ys|
    decreases xs, 0, |xs| - i
  {
    if i < |xs| && i < |ys| then
      CreatePatches(path + "/" + Decimal(i), xs[i], ys[i], cs, stale)
      + ArrayPatches(path, xs, ys, i + 1, cs, stale)
    else RemoveTail(path, i, |xs| - i, stale) + AddTail(path, ys[i..], stale)
  }

  /** Every leftover element is removed at the same index: the index does not advance. */
  function RemoveTail(path: string, index: nat, n: nat, stale: char): seq<Json> {
    if n == 0 then []
    else [MakePatch("remove", Extend(path, Decimal(index), stale), None)] + RemoveTail(path, index, n - 1, stale)
  }

  function AddTail(path: string, ys: seq<Json>, stale: char): seq<Json> {
    if ys == [] then [] else [MakePatch("add", Extend(path, "-", stale), Some(ys[0]))] + AddTail(path, ys[1..], stale)
  }

  function ObjectPatches(path: string, parent: Json, fs: seq<Member>, ts: seq<Member>, cs: bool, stale: char): seq<Json>
    requires parent.Object? && forall i :: 0 <= i < |fs| ==> fs[i] in parent.members
    decreases parent, 0, |fs| + |ts|
  {
    if fs == [] && ts == [] then []
    else
      var diff := Order(fs, ts, cs);
      if diff == 0 then
        CreatePatches(Extend(path, fs[0].key, stale), fs[0].value, ts[0].value, cs, stale)
        + ObjectPatches(path, parent, fs[1..], ts[1..], cs, stale)
      else if diff < 0 then
        [MakePatch("remove", Extend(path, fs[0].key, stale), None)]
        + ObjectPatches(path, parent, fs[1..], ts, cs, stale)
      else
        [MakePatch("add", Extend(path, ts[0].key, stale), Some(ts[0].value))]
        + ObjectPatches(path, parent, fs, ts[1..], cs, stale)
  }

  /** create_patches with its loops, appending to the patch array it is given. */
  method CreatePatchesInto(patches: seq<Json>, path: string, from: Json, to: Json, cs: bool, stale: char)
    returns (r: seq<Json>)
    ensures r == patches + CreatePatches(path, from, to, cs, stale)
    decreases from, 1
  {
    if !SameType(from, to) { return patches + [MakePatch("replace", path, Some(to))]; }
    r := patches;
    match from
    case Number(_, _) => if from != to { r := r + [MakePatch("replace", path, Some(to))]; }
    case Str(_) => if from != to { r := r + [MakePatch("replace", path, Some(to))]; }
    case Array(_) => r := ArrayPatchesInto(patches, path, from, to, cs, stale);
    case Object(_) => r := ObjectPatchesInto(patches, path, from, to, cs, stale);
    case _ =>
  }

  method ArrayPatchesInto(patches: seq<Json>, path: string, from: Json, to: Json, cs: bool, stale: char)
    returns (r: seq<Json>)
    requires from.Array? && to.Array?
    ensures r == patches + ArrayPatches(path, from.items, to.items, 0, cs, stale)
    decreases from, 0
  {
    hide CreatePatches, RemoveTail, AddTail;
    var xs, ys := from.items, to.items;
    ghost var all := patches + ArrayPatches(path, xs, ys, 0, cs, stale);
    r := patches;
    var index := 0;
    while index < |xs| && index < |ys|
      invariant index <= |xs| && index <= |ys|
      invariant r + ArrayPatches(path, xs, ys, index, cs, stale) == all
    {
      r := CreatePatchesInto(r, path + "/" + Decimal(index), xs[index], ys[index], cs, stale);
      index := index + 1;
    }
    ghost var before := r;
    r := RemoveTailInto(r, path, index, |xs| - index, stale);
    r := AddTailInto(r, path, ys, index, stale);
    assert r == before + (RemoveTail(path, index, |xs| - index, stale) + AddTail(path, ys[index..], stale));
  }

  /** The loop over the leftover elements of `from`. */
  method RemoveTailInto(patches: seq<Json>, path: string, index: nat, n: nat, stale: char) returns (r: seq<Json>)
    ensures r == patches + RemoveTail(path, index, n, stale)
  {
    hide Extend, MakePatch;
    r := patches;
    var left := n;
    while left > 0
      invariant r + RemoveTail(path, index, left, stale) == patches + RemoveTail(path, index, n, stale)
    {
      r := r + [MakePatch("remove", Extend(path, Decimal(index), stale), None)];
      left := left - 1;
    }
  }

  /** The loop over the new elements of `to`. */
  method AddTailInto(patches: seq<Json>, path: string, ys: seq<Json>, start: nat, stale: char) returns (r: seq<Json>)
    requires start <= |ys|
    ensures r == patches + AddTail(path, ys[start..], stale)
  {
    hide Extend, MakePatch;
    r := patches;
    for index := start to |ys|
      invariant r + AddTail(path, ys[index..], stale) == patches + AddTail(path, ys[start..], stale)
    {
      assert ys[index..][1..] == ys[index + 1..];
      r := r + [MakePatch("add", Extend(path, "-", stale), Some(ys[index]))];
    }
  }

  method ObjectPatchesInto(patches: seq<Json>, path: string, from: Json, to: Json, cs: bool, stale: char)
    returns (r: seq<Json>)
    requires from.Object? && to.Object?
    ensures r == patches + ObjectPatches(path, from, Sort(from.members, cs), Sort(to.members, cs), cs, stale)
    decreases from, 0, 1
  {
    r := patches;
    var fs, ts := Sort(from.members, cs), Sort(to.members, cs);
    while fs != [] || ts != []
      invariant forall i :: 0 <= i < |fs| ==> fs[i] in from.members
      invariant r + ObjectPatches(path, from, fs, ts, cs, stale)
                == patches + ObjectPatches(path, from, Sort(from.members, cs), Sort(to.members, cs), cs, stale)
      decreases |fs| + |ts|
    {
      var next;
      next, fs, ts := ObjectStep(path, from, fs, ts, cs, stale);
      r := r + next;
    }
  }

  /** One round of the object loop: the patches it emits and what is left of both lists. */
  method ObjectStep(path: string, from: Json, fs: seq<Member>, ts: seq<Member>, cs: bool, stale: char)
    returns (next: seq<Json>, fs': seq<Member>, ts': seq<Member>)
    requires from.Object? && (fs != [] || ts != [])
    requires forall i :: 0 <= i < |fs| ==> fs[i] in from.members
    ensures forall i :: 0 <= i < |fs'| ==> fs'[i] in from.members
    ensures |fs'| + |ts'| < |fs| + |ts|
    ensures ObjectPatches(path, from, fs, ts, cs, stale) == next + ObjectPatches(path, from, fs', ts', cs, stale)
    decreases from, 0, 0
  {
    var diff := Order(fs, ts, cs);
    if diff == 0 {
      next := CreatePatchesInto([], Extend(path, fs[0].key, stale), fs[0].value, ts[0].value, cs, stale);
      fs', ts' := fs[1..], ts[1..];
    } else if diff < 0 {
      next := [MakePatch("remove", Extend(path, fs[0].key, stale), None)];
      fs', ts' := fs[1..], ts;
    } else {
      next := [MakePatch("add", Extend(path, ts[0].key, stale), Some(ts[0].value))];
      fs', ts' := fs, ts[1..];
    }
  }

  // ---------- Applying ----------

  datatype Operation = INVALID | ADD | REMOVE | REPLACE | MOVE | COPY | TEST

  function DecodeOperation(patch: Json, cs: bool): Operation {
    match GetObjectItem(patch, "op", cs)
    case Some(Str(s)) =>
      if s == "add" then ADD else if s == "remove" then REMOVE else if s == "replace" then REPLACE
      else if s == "move" then MOVE else if s == "copy" then COPY else if s == "test" then TEST
      else INVALID
    case _ => INVALID
  }

  /** Detach a child by its decoded name.  Members are looked up without regard to case, whatever
      the mode of the patch. */
  function DetachChild(parent: Json, name: string): Option<(Json, Json)> {
    match parent
    case Array(items) =>
      (match DecodeArrayIndex(name)
       case None => None
       case Some(i) => if i < |items| then Some((Array(RemoveAt(items, i)), items[i])) else None)
    case Object(ms) =>
      var i := FindIndex(ms, name, false);
      if i < |ms| then Some((Object(RemoveAt(ms, i)), ms[i].value)) else None
    case _ => None
  }

  /** detach_path: the remaining tree and the detached item. */
  function DetachPath(j: Json, path: string, cs: bool): Option<(Json, Json)> {
    match SplitLast(path)
    case None => None
    case Some((p, c)) =>
      match Locate(j, p, cs)
      case None => None
      case Some(at) =>
        match DetachChild(Get(j, at), DecodePointer(c))
        case None => None
        case Some((parent, item)) => Some((Put(j, at, parent), item))
  }

  datatype Outcome = Done(tree: Json) | Error(status: int)

  function AddChild(parent: Json, name: string, value: Json, cs: bool): Outcome {
    match parent
    case Array(items) =>
      if name == "-" then Done(Array(items + [value]))
      else
        (match DecodeArrayIndex(name)
         case None => Error(11)
         case Some(i) => if i <= |items| then Done(Array(InsertAt(items, i, value))) else Error(10))
    case Object(ms) => Done(Object(RemoveFirst(ms, name, cs) + [Keyed(name, value)]))
    case _ => Error(9)
  }

  /** Add a value at a path: the tree after the call and its status. */
  function AddAtPath(j: Json, path: string, value: Json, cs: bool): (Json, int) {
    match SplitLast(path)
    case None => (j, 9)
    case Some((p, c)) =>
      match Locate(j, p, cs)
      case None => (j, 9)
      case Some(at) =>
        match AddChild(Get(j, at), DecodePointer(c), value, cs)
        case Error(e) => (j, e)
        case Done(parent) => (Put(j, at, parent), 0)
  }

  /** apply_patch, once the operation, path, value and source have been read from the patch. */
  function ApplyOperation(j: Json, op: Operation, path: string, value: Option<Json>, source: Option<Json>,
                          cs: bool): (Json, int) {
    if op == INVALID then (j, 3)
    else if op == TEST then
      (match Locate(j, path, cs)
       case None => (j, 1)
       case Some(at) => (j, if value.Some? && CompareJson(Get(j, at), value.value, cs) then 0 else 1))
    else if path == "" && op == REMOVE then (Invalid, 0)
    else if path == "" && (op == REPLACE || op == ADD) then
      if value.None? then (j, 7) else (value.value, 0)
    else if op == REMOVE || op == REPLACE then
      (match DetachPath(j, path, cs)
       case None => (j, 13)
       case Some((rest, _)) =>
         if op == REMOVE then (rest, 0)
         else if value.None? then (rest, 7)
         else AddAtPath(rest, path, value.value, cs))
    else if op == MOVE || op == COPY then
      (match source
       case None => (j, 4)
       case Some(Str(from)) =>
         if op == MOVE then
           (match DetachPath(j, from, cs)
            case None => (j, 5)
            case Some((rest, item)) => AddAtPath(rest, path, item, cs))
         else
           (match Locate(j, from, cs)
            case None => (j, 5)
            case Some(at) => AddAtPath(j, path, Get(j, at), cs))
       case Some(_) => (j, 5))
    else if value.None? then (j, 7)
    else AddAtPath(j, path, value.value, cs)
  }

  /** apply_patch: the tree after the call and the status. */
  function ApplyPatch(j: Json, patch: Json, cs: bool): (Json, int) {
    match GetObjectItem(patch, "path", cs)
    case Some(Str(path)) =>
      ApplyOperation(j, DecodeOperation(patch, cs), path, GetObjectItem(patch, "value", cs),
                     GetObjectItem(patch, "from", cs), cs)
    case _ => (j, 2)
  }

  /** Patches in order; the first one that fails stops the run. */
  function ApplyAll(j: Json, patches: seq<Json>, cs: bool): (Json, int)
    decreases |patches|
  {
    if patches == [] then (j, 0)
    else
      var (r, status) := ApplyPatch(j, patches[0], cs);
      if status != 0 then (r, status) else ApplyAll(r, patches[1..], cs)
  }

  /** cJSONUtils_ApplyPatches and its case-sensitive variant. */
  method ApplyPatches(root: Json, patches: Json, cs: bool) returns (r: Json, status: int)
    ensures (r, status) == if patches.Array? then ApplyAll(root, patches.items, cs) else (root, 1)
  {
    r := root;
    if !patches.Array? { return r, 1; }
    status := 0;
    var k := 0;
    while k < |patches.items|
      invariant k <= |patches.items|
      invariant status == 0
      invariant ApplyAll(r, patches.items[k..], cs) == ApplyAll(root, patches.items, cs)
    {
      var (next, s) := ApplyPatch(r, patches.items[k], cs);
      r, status := next, s;
      if status != 0 { return; }
      k := k + 1;
    }
  }
}
