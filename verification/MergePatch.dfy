/** JSON Merge Patch (RFC 7396) as cJSON_Utils applies and generates it. */
module MergePatch {
  import opened Common
  import opened CStrings
  import opened SortSeq
  import opened JsonValue
  import opened JsonCompare

  // ---------- The code ----------

  /** merge_patch on a target that may be missing. */
  function Apply(target: Option<Json>, patch: Json, cs: bool): Json
    decreases patch
  {
    if !patch.Object? then patch
    else
      var base := if target.Some? && target.value.Object? then target.value.members else [];
      Object(ApplyMembers(base, patch.members, cs))
  }

  function ApplyMember(ms: seq<Member>, p: Member, cs: bool): seq<Member>
    decreases p
  {
    if p.value.Null? then RemoveFirst(ms, p.key, cs)
    else
      var i := FindIndex(ms, p.key, cs);
      var detached := if i < |ms| then Some(ms[i].value) else None;
      RemoveFirst(ms, p.key, cs) + [Keyed(p.key, Apply(detached, p.value, cs))]
  }

  function ApplyMembers(ms: seq<Member>, ps: seq<Member>, cs: bool): seq<Member>
    decreases ps
  {
    if ps == [] then ms else ApplyMembers(ApplyMember(ms, ps[0], cs), ps[1..], cs)
  }

  /** merge_patch with its loop over the children of the patch. */
  method ApplyLoop(target: Option<Json>, patch: Json, cs: bool) returns (r: Json)
    ensures r == Apply(target, patch, cs)
    decreases patch
  {
    if !patch.Object? { return patch; }
    var ms: seq<Member> := if target.Some? && target.value.Object? then target.value.members else [];
    var base := ms;
    var k := 0;
    while k < |patch.members|
      invariant k <= |patch.members|
      invariant ApplyMembers(ms, patch.members[k..], cs) == ApplyMembers(base, patch.members, cs)
    {
      var p := patch.members[k];
      if p.value.Null? {
        ms := RemoveFirst(ms, p.key, cs);
      } else {
        var i := FindIndex(ms, p.key, cs);
        var detached := if i < |ms| then Some(ms[i].value) else None;
        var replacement := ApplyLoop(detached, p.value, cs);
        ms := RemoveFirst(ms, p.key, cs) + [Keyed(p.key, replacement)];
      }
      assert patch.members[k..][1..] == patch.members[k + 1..];
      k := k + 1;
    }
    return Object(ms);
  }

  /** strcmp on the two current children, whatever the mode; a missing one counts as larger. */
  function Order(fs: seq<Member>, ts: seq<Member>): int {
    if fs == [] then 1 else if ts == [] then -1 else Strcmp(fs[0].key, ts[0].key)
  }

  /** generate_merge_patch; None is the NULL it returns when two objects do not differ.  A common
      member recurses into the case-insensitive variant. */
  function Generate(from: Json, to: Json, cs: bool): Option<Json>
    decreases from, 1, 0
  {
    if !to.Object? || !from.Object? then Some(to)
    else
      var ps := Walk(from, Sort(from.members, cs), Sort(to.members, cs), cs);
      if ps == [] then None else Some(Object(ps))
  }

  function Walk(parent: Json, fs: seq<Member>, ts: seq<Member>, cs: bool): seq<Member>
    requires parent.Object? && forall i :: 0 <= i < |fs| ==> fs[i] in parent.members
    decreases parent, 0, |fs| + |ts|
  {
    if fs == [] && ts == [] then []
    else if Order(fs, ts) < 0 then [Keyed(fs[0].key, Null)] + Walk(parent, fs[1..], ts, cs)
    else if Order(fs, ts) > 0 then [ts[0]] + Walk(parent, fs, ts[1..], cs)
    else
      (if CompareJson(fs[0].value, ts[0].value, cs) then []
       else match Generate(fs[0].value, ts[0].value, false)
            case None => []
            case Some(p) => [Keyed(ts[0].key, p)])
      + Walk(parent, fs[1..], ts[1..], cs)
  }

  /** generate_merge_patch with its loop. */
  method GenerateLoop(from: Json, to: Json, cs: bool) returns (r: Option<Json>)
    ensures r == Generate(from, to, cs)
    decreases from, 1
  {
    if !to.Object? || !from.Object? { return Some(to); }
    var patch := WalkLoop(from, Sort(from.members, cs), Sort(to.members, cs), cs);
    return if patch == [] then None else Some(Object(patch));
  }

  method WalkLoop(from: Json, first: seq<Member>, second: seq<Member>, cs: bool) returns (patch: seq<Member>)
    requires from.Object? && forall i :: 0 <= i < |first| ==> first[i] in from.members
    ensures patch == Walk(from, first, second, cs)
    decreases from, 0, 1
  {
    hide Walk;
    var fs, ts := first, second;
    patch := [];
    NothingToWalk(from, cs);
    while fs != [] || ts != []
      invariant forall i :: 0 <= i < |fs| ==> fs[i] in from.members
      invariant patch + Walk(from, fs, ts, cs) == Walk(from, first, second, cs)
      decreases |fs| + |ts|
    {
      var next: seq<Member>;
      next, fs, ts := WalkStep(from, fs, ts, cs);
      patch := patch + next;
    }
  }

  lemma NothingToWalk(from: Json, cs: bool)
    requires from.Object?
    ensures Walk(from, [], [], cs) == []
  {
  }

  method WalkStep(from: Json, fs: seq<Member>, ts: seq<Member>, cs: bool)
    returns (next: seq<Member>, fs': seq<Member>, ts': seq<Member>)
    requires from.Object? && (fs != [] || ts != [])
    requires forall i :: 0 <= i < |fs| ==> fs[i] in from.members
    ensures forall i :: 0 <= i < |fs'| ==> fs'[i] in from.members
    ensures |fs'| + |ts'| < |fs| + |ts|
    ensures Walk(from, fs, ts, cs) == next + Walk(from, fs', ts', cs)
    decreases from, 0, 0
  {
    next, fs', ts' := [], fs, ts;
    var diff := Order(fs, ts);
    if diff < 0 {
      next, fs' := [Keyed(fs[0].key, Null)], fs[1..];
    } else if diff > 0 {
      next, ts' := [ts[0]], ts[1..];
    } else {
      fs', ts' := fs[1..], ts[1..];
      var identical := CompareJsonLoop(fs[0].value, ts[0].value, cs);
      if !identical {
        var p := GenerateLoop(fs[0].value, ts[0].value, false);
        if p.Some? { next := [Keyed(ts[0].key, p.value)]; }
      }
    }
  }

  // ---------- RFC 7396 on meanings ----------

  /** The recursive procedure of section 2 of RFC 7396, on objects as maps. */
  function MergeTree(target: Option<Tree>, patch: Tree): Tree
    decreases patch
  {
    if !patch.TObject? then patch
    else
      var base := if target.Some? && target.value.TObject? then target.value.fields else map[];
      TObject(map k | k in base.Keys + patch.fields.Keys && !(k in patch.fields && patch.fields[k].TNull?) ::
        if k in patch.fields then MergeTree(if k in base then Some(base[k]) else None, patch.fields[k]) else base[k])
  }

  function MergeFields(base: map<string, Tree>, ps: map<string, Tree>): map<string, Tree> {
    map k | k in base.Keys + ps.Keys && !(k in ps && ps[k].TNull?) ::
      if k in ps then MergeTree(if k in base then Some(base[k]) else None, ps[k]) else base[k]
  }

  ghost function ViewOption(j: Option<Json>, cs: bool): Option<Tree> {
    if j.None? then None else Some(View(j.value, cs))
  }

  ghost predicate WellFormedMembers(ms: seq<Member>, cs: bool) {
    DistinctKeys(ms, cs) && forall i :: 0 <= i < |ms| ==> WellFormed(ms[i].value, cs)
  }

  lemma RemoveFirstView(ms: seq<Member>, name: string, cs: bool)
    requires WellFormedMembers(ms, cs)
    ensures WellFormedMembers(RemoveFirst(ms, name, cs), cs)
    ensures ViewMembers(RemoveFirst(ms, name, cs), cs) == ViewMembers(ms, cs) - {Norm(name, cs)}
  {
    ViewLookup(ms, name, cs);
    var i := FindIndex(ms, name, cs);
    if i < |ms| { ViewRemoveAt(ms, i, cs); }
  }

  /** merge_patch is the RFC's procedure. */
  lemma {:induction false} ApplyIsMerge(target: Option<Json>, patch: Json, cs: bool)
    requires target.Some? ==> WellFormed(target.value, cs)
    requires WellFormed(patch, cs)
    ensures View(Apply(target, patch, cs), cs) == MergeTree(ViewOption(target, cs), View(patch, cs))
    ensures WellFormed(Apply(target, patch, cs), cs)
    decreases patch
  {
    if patch.Object? {
      var base := if target.Some? && target.value.Object? then target.value.members else [];
      MembersAreMerged(base, patch.members, cs);
    }
  }

  lemma ReplaceView(ms: seq<Member>, name: string, x: Json, cs: bool)
    requires WellFormedMembers(ms, cs) && WellFormed(x, cs)
    ensures var r := RemoveFirst(ms, name, cs) + [Keyed(name, x)];
            WellFormedMembers(r, cs) && ViewMembers(r, cs) == ViewMembers(ms, cs)[Norm(name, cs) := View(x, cs)]
  {
    RemoveFirstView(ms, name, cs);
    ViewAppend(RemoveFirst(ms, name, cs), Keyed(name, x), cs);
  }

  lemma {:induction false} MemberIsMerged(ms: seq<Member>, p: Member, cs: bool)
    requires WellFormedMembers(ms, cs) && WellFormed(p.value, cs)
    ensures var r := ApplyMember(ms, p, cs);
            var k := Norm(p.key, cs);
            var v := ViewMembers(ms, cs);
            WellFormedMembers(r, cs) &&
            ViewMembers(r, cs) == if p.value.Null? then v - {k}
                                  else v[k := MergeTree(if k in v then Some(v[k]) else None, View(p.value, cs))]
    decreases p
  {
    if p.value.Null? {
      RemoveFirstView(ms, p.key, cs);
    } else {
      ViewLookup(ms, p.key, cs);
      var i := FindIndex(ms, p.key, cs);
      var detached := if i < |ms| then Some(ms[i].value) else None;
      ApplyIsMerge(detached, p.value, cs);
      ReplaceView(ms, p.key, Apply(detached, p.value, cs), cs);
    }
  }

  lemma {:induction false} MembersAreMerged(ms: seq<Member>, ps: seq<Member>, cs: bool)
    requires WellFormedMembers(ms, cs) && WellFormedMembers(ps, cs)
    ensures WellFormedMembers(ApplyMembers(ms, ps, cs), cs)
    ensures ViewMembers(ApplyMembers(ms, ps, cs), cs) == MergeFields(ViewMembers(ms, cs), ViewMembers(ps, cs))
    decreases ps
  {
    if ps != [] {
      var ms' := ApplyMember(ms, ps[0], cs);
      MemberIsMerged(ms, ps[0], cs);
      MembersAreMerged(ms', ps[1..], cs);
      ViewKeys(ps[1..], cs, Norm(ps[0].key, cs));
      MergeFieldsStep(ViewMembers(ms, cs), ViewMembers(ps[1..], cs), Norm(ps[0].key, cs), View(ps[0].value, cs));
    }
  }

  /** One field of a merged object. */
  function MergedField(base: map<string, Tree>, ps: map<string, Tree>, k: string): Option<Tree> {
    if k in ps then
      (if ps[k].TNull? then None else Some(MergeTree(if k in base then Some(base[k]) else None, ps[k])))
    else if k in base then Some(base[k])
    else None
  }

  lemma FieldOfMerge(base: map<string, Tree>, ps: map<string, Tree>, k: string)
    ensures k in MergeFields(base, ps) <==> MergedField(base, ps, k).Some?
    ensures k in MergeFields(base, ps) ==> MergeFields(base, ps)[k] == MergedField(base, ps, k).value
  {
    hide MergeTree;
  }

  function MergedOne(base: map<string, Tree>, k: string, v: Tree): map<string, Tree> {
    if v.TNull? then base - {k} else base[k := MergeTree(if k in base then Some(base[k]) else None, v)]
  }

  lemma FieldStep(base: map<string, Tree>, rest: map<string, Tree>, k: string, v: Tree, x: string)
    requires k !in rest
    ensures MergedField(MergedOne(base, k, v), rest, x) == MergedField(base, rest[k := v], x)
  {
    hide MergeTree;
  }

  lemma MergeFieldsStep(base: map<string, Tree>, rest: map<string, Tree>, k: string, v: Tree)
    requires k !in rest
    ensures MergeFields(MergedOne(base, k, v), rest) == MergeFields(base, rest[k := v])
  {
    hide MergeFields, MergedOne, MergedField;
    var l, r := MergeFields(MergedOne(base, k, v), rest), MergeFields(base, rest[k := v]);
    forall x ensures (x in l <==> x in r) && (x in l ==> l[x] == r[x]) {
      FieldOfMerge(MergedOne(base, k, v), rest, x);
      FieldOfMerge(base, rest[k := v], x);
      FieldStep(base, rest, k, v, x);
    }
    assert l.Keys == r.Keys;
  }
}
