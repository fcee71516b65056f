/** Merge patch round trip: for documents whose member names sort the same way with and without
    regard to case, merging the generated patch gives `to` back exactly when no null of `to` has
    to be written. */
module MergePatchRoundTrip {
  import opened Common
  import opened CStrings
  import opened SortSeq
  import opened JsonValue
  import opened JsonCompare
  import opened MergePatch

  // ---------- The diff on meanings ----------

  function Diff(from: Tree, to: Tree): Option<Tree>
    decreases from, 2
  {
    if !to.TObject? || !from.TObject? then Some(to)
    else
      var fields := DiffFields(from, to);
      if fields == map[] then None else Some(TObject(fields))
  }

  function DiffFields(from: Tree, to: Tree): map<string, Tree>
    requires from.TObject? && to.TObject?
    decreases from, 1
  {
    map k | k in from.fields.Keys + to.fields.Keys &&
    !(k in from.fields && k in to.fields && from.fields[k] == to.fields[k]) ::
      DiffAt(from, to, k)
  }

  /** What the patch says about one name on which the objects differ. */
  function DiffAt(from: Tree, to: Tree, k: string): Tree
    requires from.TObject? && to.TObject? && (k in from.fields || k in to.fields)
    decreases from, 0
  {
    if k !in to.fields then TNull
    else if k !in from.fields then to.fields[k]
    else match Diff(from.fields[k], to.fields[k])
      case None => TNull
      case Some(p) => p
  }

  /** No null members along nested objects (a null inside an array is kept by a merge). */
  predicate NoNullMembers(t: Tree) {
    t.TObject? ==> forall k :: k in t.fields ==> !t.fields[k].TNull? && NoNullMembers(t.fields[k])
  }

  /** The nulls of `to` are all shared with `from`, at the same place: a caller can check this
      before generating. */
  predicate NullsShared(from: Tree, to: Tree)
    decreases (to)
  {
    if !to.TObject? then true
    else if !from.TObject? then NoNullMembers(to)
    else forall k :: k in to.fields ==>
      if k in from.fields then
        from.fields[k] == to.fields[k] || (!to.fields[k].TNull? && NullsShared(from.fields[k], to.fields[k]))
      else !to.fields[k].TNull? && NoNullMembers(to.fields[k])
  }

  lemma {:induction false} NoNullsAreShared(from: Tree, to: Tree)
    requires NoNullMembers(to)
    ensures NullsShared(from, to)
    decreases (to)
  {
    if to.TObject? && from.TObject? {
      forall k | k in to.fields && k in from.fields ensures NullsShared(from.fields[k], to.fields[k]) {
        NoNullsAreShared(from.fields[k], to.fields[k]);
      }
    }
  }

  /** Equal objects, and only they, have no patch. */
  lemma {:induction false} DiffNoneIff(from: Tree, to: Tree)
    ensures Diff(from, to).None? <==> from.TObject? && from == to
  {
    if to.TObject? && from.TObject? {
      var d := DiffFields(from, to);
      if d == map[] {
        forall k ensures k in from.fields <==> k in to.fields { assert k !in d; }
        forall k | k in from.fields ensures from.fields[k] == to.fields[k] { assert k !in d; }
        assert from.fields == to.fields;
      } else {
        var k :| k in d;
      }
    }
  }

  /** Merging a whole document into a non-object reproduces it exactly when it has no null members. */
  lemma {:induction false} MergeIntoNothingIff(target: Option<Tree>, to: Tree)
    requires target.Some? ==> !target.value.TObject?
    ensures MergeTree(target, to) == to <==> NoNullMembers(to)
    decreases (to)
  {
    if to.TObject? {
      var r := MergeTree(target, to).fields;
      forall k | k in to.fields ensures MergeTree(None, to.fields[k]) == to.fields[k] <==> NoNullMembers(to.fields[k]) {
        MergeIntoNothingIff(None, to.fields[k]);
      }
      forall k | k in r ensures k in to.fields && !to.fields[k].TNull? && r[k] == MergeTree(None, to.fields[k]) { }
      if NoNullMembers(to) {
        assert r == to.fields;
      }
      if r == to.fields {
        forall k | k in to.fields ensures !to.fields[k].TNull? && NoNullMembers(to.fields[k]) {
          assert k in r;
        }
      }
    }
  }

  /** The field of the merged object at one name. */
  lemma MergedAt(from: Tree, to: Tree, k: string)
    requires from.TObject? && to.TObject?
    ensures var f, t, d := from.fields, to.fields, DiffFields(from, to);
            var r := MergeFields(f, d);
            (k in r <==> (k in f || k in t) && !(k in d && d[k].TNull?)) &&
            (k in r && k in d ==> r[k] == MergeTree(if k in f then Some(f[k]) else None, d[k])) &&
            (k in r && k !in d ==> k in f && k in t && r[k] == f[k] == t[k])
  {
  }

  ghost predicate Restored(from: Tree, to: Tree, k: string)
    requires from.TObject? && to.TObject?
  {
    var r, t := MergeFields(from.fields, DiffFields(from, to)), to.fields;
    (k in r <==> k in t) && (k in r && k in t ==> r[k] == t[k])
  }

  ghost predicate Keeps(from: Tree, to: Tree, k: string)
    requires from.TObject? && to.TObject?
  {
    var f, t := from.fields, to.fields;
    k in t ==>
      if k in f then f[k] == t[k] || (!t[k].TNull? && NullsShared(f[k], t[k]))
      else !t[k].TNull? && NoNullMembers(t[k])
  }

  /** One name is restored exactly when its nulls are shared. */
  lemma {:induction false} RestoredIff(from: Tree, to: Tree, k: string)
    requires from.TObject? && to.TObject?
    ensures Restored(from, to, k) <==> Keeps(from, to, k)
    decreases from, 0
  {
    var f, t := from.fields, to.fields;
    MergedAt(from, to, k);
    if k in t && k !in f {
      MergeIntoNothingIff(None, t[k]);
    } else if k in t && k in f && f[k] != t[k] {
      DiffNoneIff(f[k], t[k]);
      DiffIsNull(f[k], t[k]);
      MergeDiffIff(f[k], t[k]);
    }
  }

  lemma DiffIsNull(from: Tree, to: Tree)
    requires Diff(from, to).Some?
    ensures Diff(from, to).value.TNull? <==> to.TNull?
  {
  }

  lemma AllRestoredIff(from: Tree, to: Tree)
    requires from.TObject? && to.TObject?
    ensures MergeFields(from.fields, DiffFields(from, to)) == to.fields <==> forall k :: Restored(from, to, k)
  {
    var r, t := MergeFields(from.fields, DiffFields(from, to)), to.fields;
    if forall k :: Restored(from, to, k) {
      forall k ensures (k in r <==> k in t) && (k in r ==> r[k] == t[k]) { assert Restored(from, to, k); }
      assert r == t;
    }
  }

  /** Merging the diff restores `to` exactly when its nulls are shared with `from`. */
  lemma {:induction false} MergeDiffIff(from: Tree, to: Tree)
    requires Diff(from, to).Some?
    ensures MergeTree(Some(from), Diff(from, to).value) == to <==> NullsShared(from, to)
    decreases from, 1
  {
    if to.TObject? && from.TObject? {
      AllRestoredIff(from, to);
      forall k ensures Restored(from, to, k) <==> Keeps(from, to, k) { RestoredIff(from, to, k); }
      assert NullsShared(from, to) <==> forall k :: Keeps(from, to, k) by {
        if NullsShared(from, to) {
          forall k ensures Keeps(from, to, k) { }
        }
        if forall k :: Keeps(from, to, k) {
          forall k | k in to.fields ensures Keeps(from, to, k) { }
        }
      }
      assert Diff(from, to).value == TObject(DiffFields(from, to));
    } else if to.TObject? {
      MergeIntoNothingIff(Some(from), to);
    }
  }

  // ---------- Names that sort alike in both modes ----------

  /** The names below the first level: those of an object's values. */
  ghost predicate NestedIn(j: Json, names: set<string>) { j.Object? ==> ValuesIn(j.members, names) }

  ghost predicate ValuesIn(ms: seq<Member>, names: set<string>) {
    forall i :: 0 <= i < |ms| ==> NamesIn(ms[i].value, names)
  }

  /** Ignoring case does not change the order of these names. */
  ghost predicate SameOrder(names: set<string>) {
    forall a, b :: a in names && b in names ==> (CaseInsensitiveStrcmp(a, b) < 0 <==> Strcmp(a, b) < 0)
  }

  ghost predicate NoUpperCase(s: string) { forall i :: 0 <= i < |s| ==> !('A' <= s[i] <= 'Z') }

  /** Names without upper-case letters are such names. */
  lemma LowerCaseNamesSortAlike(names: set<string>)
    requires forall a :: a in names ==> NoUpperCase(a)
    ensures SameOrder(names)
  {
    forall a, b | a in names && b in names ensures CaseInsensitiveStrcmp(a, b) == Strcmp(a, b) {
      CompareIsNormed(a, b, false);
      assert LowerAll(a) == a && LowerAll(b) == b;
    }
  }

  lemma ComparesAlike(a: string, b: string, names: set<string>)
    requires SameOrder(names) && a in names && b in names
    ensures CompareStrings(a, b, false) < 0 <==> CompareStrings(a, b, true) < 0
    ensures CompareStrings(a, b, false) == 0 <==> CompareStrings(a, b, true) == 0
    ensures Norm(a, false) == Norm(b, false) <==> a == b
  {
    ComparisonAntisymmetric(a, b, false);
    ComparisonAntisymmetric(a, b, true);
    CompareZero(a, b, false);
    CompareZero(a, b, true);
  }

  ghost predicate KeysIn<T>(s: seq<Keyed<T>>, names: set<string>) { forall i :: 0 <= i < |s| ==> s[i].key in names }

  lemma {:induction false} MergesAlike<T>(a: seq<Keyed<T>>, b: seq<Keyed<T>>, names: set<string>)
    requires SameOrder(names) && KeysIn(a, names) && KeysIn(b, names)
    ensures SortSeq.Merge(a, b, false) == SortSeq.Merge(a, b, true)
  {
    if a != [] && b != [] {
      ComparesAlike(a[0].key, b[0].key, names);
      MergesAlike(a[1..], b, names);
      MergesAlike(a, b[1..], names);
    }
  }

  lemma {:induction false} SortsAlike<T>(s: seq<Keyed<T>>, names: set<string>)
    requires SameOrder(names) && KeysIn(s, names)
    ensures Sort(s, false) == Sort(s, true) && KeysIn(Sort(s, true), names)
    decreases |s|
  {
    forall i | 0 <= i < |s| - 1
      ensures Compare(s[i], s[i + 1], false) < 0 <==> Compare(s[i], s[i + 1], true) < 0
    {
      ComparesAlike(s[i].key, s[i + 1].key, names);
    }
    assert AlreadySorted(s, false) <==> AlreadySorted(s, true);
    forall i | 0 <= i < |s| ensures Sort(s, true)[i].key in names { assert Sort(s, true)[i] in s; }
    if |s| >= 2 && !AlreadySorted(s, true) {
      var mid := Middle(|s|);
      SortsAlike(s[..mid], names);
      SortsAlike(s[mid..], names);
      MergesAlike(Sort(s[..mid], true), Sort(s[mid..], true), names);
    }
  }

  lemma {:induction false} JsonComparesAlike(a: Json, b: Json, names: set<string>)
    requires SameOrder(names) && NamesIn(a, names) && NamesIn(b, names)
    ensures CompareJson(a, b, false) == CompareJson(a, b, true)
    decreases a
  {
    hide Sort, CompareStrings, SameOrder;
    match (a, b)
    case (Array(x), Array(y)) =>
      forall i | 0 <= i < |x| && i < |y| ensures CompareJson(x[i], y[i], false) == CompareJson(x[i], y[i], true) {
        JsonComparesAlike(x[i], y[i], names);
      }
    case (Object(x), Object(y)) =>
      SortsAlike(x, names);
      SortsAlike(y, names);
      var s, t := Sort(x, true), Sort(y, true);
      forall i | 0 <= i < |s| && i < |t|
        ensures CompareJson(s[i].value, t[i].value, false) == CompareJson(s[i].value, t[i].value, true)
        ensures CompareStrings(s[i].key, t[i].key, false) == 0 <==> CompareStrings(s[i].key, t[i].key, true) == 0
      {
        assert s[i] in x && t[i] in y;
        ComparesAlike(s[i].key, t[i].key, names);
        JsonComparesAlike(s[i].value, t[i].value, names);
      }
      assert CompareJson(a, b, false) == SamePairs(s, t, false);
      assert CompareJson(a, b, true) == SamePairs(s, t, true);
    case _ =>
  }

  lemma {:induction false} FindsAlike(ms: seq<Member>, name: string, names: set<string>)
    requires SameOrder(names) && MembersIn(ms, names) && name in names
    ensures FindIndex(ms, name, false) == FindIndex(ms, name, true)
  {
    if ms != [] {
      ComparesAlike(name, ms[0].key, names);
      FindsAlike(ms[1..], name, names);
    }
  }

  lemma {:induction false} AppliesAlike(target: Option<Json>, patch: Json, names: set<string>)
    requires SameOrder(names) && NamesIn(patch, names) && (target.Some? ==> NamesIn(target.value, names))
    ensures Apply(target, patch, false) == Apply(target, patch, true)
    ensures NamesIn(Apply(target, patch, true), names)
    decreases patch
  {
    if patch.Object? {
      var base := if target.Some? && target.value.Object? then target.value.members else [];
      MembersApplyAlike(base, patch.members, names);
    }
  }

  lemma {:induction false} MemberAppliesAlike(ms: seq<Member>, p: Member, names: set<string>)
    requires SameOrder(names) && MembersIn(ms, names) && p.key in names && NamesIn(p.value, names)
    ensures ApplyMember(ms, p, false) == ApplyMember(ms, p, true)
    ensures MembersIn(ApplyMember(ms, p, true), names)
    decreases p
  {
    FindsAlike(ms, p.key, names);
    if !p.value.Null? {
      var i := FindIndex(ms, p.key, true);
      AppliesAlike(if i < |ms| then Some(ms[i].value) else None, p.value, names);
    }
  }

  lemma {:induction false} MembersApplyAlike(ms: seq<Member>, ps: seq<Member>, names: set<string>)
    requires SameOrder(names) && MembersIn(ms, names) && MembersIn(ps, names)
    ensures ApplyMembers(ms, ps, false) == ApplyMembers(ms, ps, true)
    ensures MembersIn(ApplyMembers(ms, ps, true), names)
    decreases ps
  {
    if ps != [] {
      MemberAppliesAlike(ms, ps[0], names);
      MembersApplyAlike(ApplyMember(ms, ps[0], true), ps[1..], names);
    }
  }

  lemma {:induction false} GeneratesAlike(from: Json, to: Json, names: set<string>)
    requires SameOrder(names) && NamesIn(from, names) && NamesIn(to, names)
    ensures Generate(from, to, false) == Generate(from, to, true)
  {
    if from.Object? && to.Object? {
      SortsAlike(from.members, names);
      SortsAlike(to.members, names);
      var fs, ts := Sort(from.members, true), Sort(to.members, true);
      forall i | 0 <= i < |fs| ensures NamesIn(fs[i].value, names) { assert fs[i] in from.members; }
      forall i | 0 <= i < |ts| ensures NamesIn(ts[i].value, names) { assert ts[i] in to.members; }
      WalksAlike(from, fs, ts, names);
    }
  }

  lemma {:induction false} WalksAlike(parent: Json, fs: seq<Member>, ts: seq<Member>, names: set<string>)
    requires parent.Object? && forall i :: 0 <= i < |fs| ==> fs[i] in parent.members
    requires SameOrder(names) && MembersIn(fs, names) && MembersIn(ts, names)
    ensures Walk(parent, fs, ts, false) == Walk(parent, fs, ts, true)
    decreases |fs| + |ts|
  {
    if fs != [] || ts != [] {
      if Order(fs, ts) < 0 {
        WalksAlike(parent, fs[1..], ts, names);
      } else if Order(fs, ts) > 0 {
        WalksAlike(parent, fs, ts[1..], names);
      } else {
        WalksAlike(parent, fs[1..], ts[1..], names);
        JsonComparesAlike(fs[0].value, ts[0].value, names);
      }
    }
  }

  // ---------- The generated patch means the diff ----------

  lemma DiffFieldAt(from: Tree, to: Tree, n: string)
    requires from.TObject? && to.TObject? && n in DiffFields(from, to)
    ensures DiffFields(from, to)[n] == DiffAt(from, to, n)
  {
  }

  lemma DiffRemoved(f: map<string, Tree>, t: map<string, Tree>, k: string, x: Tree)
    requires k !in f && k !in t
    ensures DiffFields(TObject(f[k := x]), TObject(t)) == DiffFields(TObject(f), TObject(t))[k := TNull]
  {
    var d, e := DiffFields(TObject(f), TObject(t)), DiffFields(TObject(f[k := x]), TObject(t));
    forall n ensures n in e <==> n in d || n == k { }
    forall n | n in e ensures e[n] == d[k := TNull][n] {
      DiffFieldAt(TObject(f[k := x]), TObject(t), n);
      if n != k { DiffFieldAt(TObject(f), TObject(t), n); }
    }
  }

  lemma DiffAdded(f: map<string, Tree>, t: map<string, Tree>, k: string, y: Tree)
    requires k !in f && k !in t
    ensures DiffFields(TObject(f), TObject(t[k := y])) == DiffFields(TObject(f), TObject(t))[k := y]
  {
    var d, e := DiffFields(TObject(f), TObject(t)), DiffFields(TObject(f), TObject(t[k := y]));
    forall n ensures n in e <==> n in d || n == k { }
    forall n | n in e ensures e[n] == d[k := y][n] {
      DiffFieldAt(TObject(f), TObject(t[k := y]), n);
      if n != k { DiffFieldAt(TObject(f), TObject(t), n); }
    }
  }

  lemma DiffShared(f: map<string, Tree>, t: map<string, Tree>, k: string, x: Tree, y: Tree)
    requires k !in f && k !in t
    ensures DiffFields(TObject(f[k := x]), TObject(t[k := y])) ==
            if x == y then DiffFields(TObject(f), TObject(t))
            else DiffFields(TObject(f), TObject(t))[k := DiffAt(TObject(f[k := x]), TObject(t[k := y]), k)]
  {
    var d, e := DiffFields(TObject(f), TObject(t)), DiffFields(TObject(f[k := x]), TObject(t[k := y]));
    forall n ensures n in e <==> n in d || (n == k && x != y) { }
    forall n | n in e && n != k ensures e[n] == d[n] {
      DiffFieldAt(TObject(f[k := x]), TObject(t[k := y]), n);
      DiffFieldAt(TObject(f), TObject(t), n);
    }
  }

  ghost function Meaning(ms: seq<Member>): Tree { TObject(ViewMembers(ms, true)) }

  lemma HeadIsSmallest(s: seq<Member>)
    requires s != [] && StrictlyAscending(s, true) && DistinctKeys(s, true)
    ensures StrictlyAscending(s[1..], true) && DistinctKeys(s[1..], true)
    ensures s[0].key !in ViewMembers(s[1..], true)
    ensures ViewMembers(s, true) == ViewMembers(s[1..], true)[s[0].key := View(s[0].value, true)]
  {
    HeadKeyOnce(s, true);
  }

  lemma SmallerIsMissing(x: Member, s: seq<Member>)
    requires StrictlyAscending(s, true) && (s == [] || Compare(x, s[0], true) < 0)
    ensures x.key !in ViewMembers(s, true)
  {
    if s != [] { SmallestKeyMissing([x], s, true); }
  }

  lemma ConsMeaning(m: Member, ps: seq<Member>)
    requires WellFormed(m.value, true) && WellFormedMembers(ps, true) && m.key !in ViewMembers(ps, true)
    ensures WellFormedMembers([m] + ps, true)
    ensures ViewMembers([m] + ps, true) == ViewMembers(ps, true)[m.key := View(m.value, true)]
  {
    ViewKeys(ps, true, m.key);
    assert ([m] + ps)[1..] == ps;
  }

  ghost predicate Walkable(parent: Json, fs: seq<Member>, ts: seq<Member>, names: set<string>) {
    parent.Object? && (forall i :: 0 <= i < |fs| ==> fs[i] in parent.members) &&
    StrictlyAscending(fs, true) && StrictlyAscending(ts, true) &&
    WellFormedMembers(fs, true) && WellFormedMembers(ts, true) && ValuesIn(fs, names) && ValuesIn(ts, names)
  }

  /** What generate_merge_patch returns means the diff of the two meanings. */
  lemma {:induction false} GenerateMeansDiff(from: Json, to: Json, names: set<string>)
    requires SameOrder(names) && NestedIn(from, names) && NestedIn(to, names)
    requires WellFormed(from, true) && WellFormed(to, true)
    ensures var p := Generate(from, to, true);
            (p.Some? ==> WellFormed(p.value, true)) && ViewOption(p, true) == Diff(View(from, true), View(to, true))
    decreases from, 1, 0
  {
    if from.Object? && to.Object? {
      var fs, ts := Sort(from.members, true), Sort(to.members, true);
      SortIsStrict(from.members, true);
      SortIsStrict(to.members, true);
      SortKeepsMeaning(from.members, true, true);
      SortKeepsMeaning(to.members, true, true);
      forall i | 0 <= i < |fs| ensures NamesIn(fs[i].value, names) && WellFormed(fs[i].value, true) {
        assert fs[i] in from.members;
      }
      forall i | 0 <= i < |ts| ensures NamesIn(ts[i].value, names) && WellFormed(ts[i].value, true) {
        assert ts[i] in to.members;
      }
      WalkMeansDiff(from, fs, ts, names);
      var ps := Walk(from, fs, ts, true);
      assert Meaning(fs) == View(from, true) && Meaning(ts) == View(to, true);
      if ps != [] { assert ps[0].key in ViewMembers(ps, true); }
    }
  }

  lemma {:induction false} WalkMeansDiff(parent: Json, fs: seq<Member>, ts: seq<Member>, names: set<string>)
    requires SameOrder(names) && Walkable(parent, fs, ts, names)
    ensures WellFormedMembers(Walk(parent, fs, ts, true), true)
    ensures ViewMembers(Walk(parent, fs, ts, true), true) == DiffFields(Meaning(fs), Meaning(ts))
    decreases parent, 0, |fs| + |ts|
  {
    if fs == [] && ts == [] {
    } else if Order(fs, ts) < 0 {
      HeadIsSmallest(fs);
      SmallerIsMissing(fs[0], ts);
      WalkMeansDiff(parent, fs[1..], ts, names);
      DiffRemoved(ViewMembers(fs[1..], true), ViewMembers(ts, true), fs[0].key, View(fs[0].value, true));
      ConsMeaning(Keyed(fs[0].key, Null), Walk(parent, fs[1..], ts, true));
    } else if Order(fs, ts) > 0 {
      HeadIsSmallest(ts);
      if fs != [] { ComparisonAntisymmetric(fs[0].key, ts[0].key, true); }
      SmallerIsMissing(ts[0], fs);
      WalkMeansDiff(parent, fs, ts[1..], names);
      DiffAdded(ViewMembers(fs, true), ViewMembers(ts[1..], true), ts[0].key, View(ts[0].value, true));
      ConsMeaning(ts[0], Walk(parent, fs, ts[1..], true));
    } else {
      SharedMeansDiff(parent, fs, ts, names);
    }
  }

  lemma {:induction false} SharedMeansDiff(parent: Json, fs: seq<Member>, ts: seq<Member>, names: set<string>)
    requires SameOrder(names) && Walkable(parent, fs, ts, names) && fs != [] && ts != [] && Order(fs, ts) == 0
    ensures WellFormedMembers(Walk(parent, fs, ts, true), true)
    ensures ViewMembers(Walk(parent, fs, ts, true), true) == DiffFields(Meaning(fs), Meaning(ts))
    decreases parent, 0, |fs| + |ts| - 1
  {
    hide View, CompareJson, Generate, StrictlyAscending, Diff, SameOrder, NamesIn;
    StrcmpZero(fs[0].key, ts[0].key);
    HeadIsSmallest(fs);
    HeadIsSmallest(ts);
    var k, x, y := ts[0].key, fs[0].value, ts[0].value;
    var rest := Walk(parent, fs[1..], ts[1..], true);
    WalkMeansDiff(parent, fs[1..], ts[1..], names);
    DiffShared(ViewMembers(fs[1..], true), ViewMembers(ts[1..], true), k, View(x, true), View(y, true));
    CompareDecidesMeaning(x, y, true);
    if CompareJson(x, y, true) {
      assert [] + rest == rest;
    } else {
      ValueMeansDiff(x, y, names);
      ConsMeaning(Keyed(k, Generate(x, y, false).value), rest);
    }
  }

  lemma NamesAreNested(j: Json, names: set<string>)
    requires NamesIn(j, names)
    ensures NestedIn(j, names)
  {
  }

  /** The patch of a differing member, generated in the case-insensitive mode. */
  lemma {:induction false} ValueMeansDiff(x: Json, y: Json, names: set<string>)
    requires SameOrder(names) && NamesIn(x, names) && NamesIn(y, names)
    requires WellFormed(x, true) && WellFormed(y, true) && View(x, true) != View(y, true)
    ensures var p := Generate(x, y, false);
            p.Some? && WellFormed(p.value, true) && Some(View(p.value, true)) == Diff(View(x, true), View(y, true))
    decreases x, 2, 0
  {
    NamesAreNested(x, names);
    NamesAreNested(y, names);
    GenerateMeansDiff(x, y, names);
    GeneratesAlike(x, y, names);
    DiffNoneIff(View(x, true), View(y, true));
  }

  /** The round trip, for names whose order does not depend on case; in the case-sensitive mode that
      concerns the names below the first level only.  There is no patch exactly for equal objects,
      and merging the patch into any document that means `from` gives one that means `to` exactly
      when the nulls of `to` are shared with `from`. */
  lemma MergePatchRoundTripIff(doc: Json, from: Json, to: Json, names: set<string>, cs: bool)
    requires SameOrder(names)
    requires if cs then NestedIn(from, names) && NestedIn(to, names)
             else NamesIn(doc, names) && NamesIn(from, names) && NamesIn(to, names)
    requires WellFormed(doc, true) && WellFormed(from, true) && WellFormed(to, true)
    requires View(doc, true) == View(from, true)
    ensures var p := Generate(from, to, cs);
            (p.None? <==> from.Object? && View(from, true) == View(to, true)) &&
            (p.Some? ==> (View(Apply(Some(doc), p.value, cs), true) == View(to, true)
                          <==> NullsShared(View(from, true), View(to, true))))
  {
    hide View, WellFormed, Diff, MergeTree, NullsShared;
    if !cs {
      NamesAreNested(from, names);
      NamesAreNested(to, names);
      ModesAgree(doc, from, to, names);
    }
    GenerateMeansDiff(from, to, names);
    DiffNoneIff(View(from, true), View(to, true));
    if Generate(from, to, true).Some? {
      ApplyIsMerge(Some(doc), Generate(from, to, true).value, true);
      MergeDiffIff(View(from, true), View(to, true));
    }
    ObjectMeans(from);
  }

  lemma ObjectMeans(j: Json)
    ensures View(j, true).TObject? <==> j.Object?
  {
  }

  /** On such names everywhere, generating and merging is the same in both modes. */
  lemma ModesAgree(doc: Json, from: Json, to: Json, names: set<string>)
    requires SameOrder(names) && NamesIn(doc, names) && NamesIn(from, names) && NamesIn(to, names)
    ensures Generate(from, to, false) == Generate(from, to, true)
    ensures var p := Generate(from, to, true);
            p.Some? ==> Apply(Some(doc), p.value, false) == Apply(Some(doc), p.value, true) &&
                        NamesIn(Apply(Some(doc), p.value, true), names)
  {
    GeneratesAlike(from, to, names);
    var p := Generate(from, to, true);
    if p.Some? {
      GeneratedNames(from, to, names);
      AppliesAlike(Some(doc), p.value, names);
    }
  }

  lemma {:induction false} GeneratedNames(from: Json, to: Json, names: set<string>)
    requires SameOrder(names) && NamesIn(from, names) && NamesIn(to, names) && Generate(from, to, true).Some?
    ensures NamesIn(Generate(from, to, true).value, names)
    decreases from, 1, 0
  {
    if from.Object? && to.Object? {
      var fs, ts := Sort(from.members, true), Sort(to.members, true);
      forall i | 0 <= i < |fs| ensures fs[i].key in names && NamesIn(fs[i].value, names) {
        assert fs[i] in from.members;
      }
      forall i | 0 <= i < |ts| ensures ts[i].key in names && NamesIn(ts[i].value, names) { assert ts[i] in to.members; }
      WalkNames(from, fs, ts, names);
    }
  }

  lemma {:induction false} WalkNames(parent: Json, fs: seq<Member>, ts: seq<Member>, names: set<string>)
    requires parent.Object? && forall i :: 0 <= i < |fs| ==> fs[i] in parent.members
    requires SameOrder(names) && MembersIn(fs, names) && MembersIn(ts, names)
    ensures MembersIn(Walk(parent, fs, ts, true), names)
    decreases parent, 0, |fs| + |ts|
  {
    if fs == [] && ts == [] {
    } else if Order(fs, ts) < 0 {
      WalkNames(parent, fs[1..], ts, names);
    } else if Order(fs, ts) > 0 {
      WalkNames(parent, fs, ts[1..], names);
    } else {
      WalkNames(parent, fs[1..], ts[1..], names);
      GeneratesAlike(fs[0].value, ts[0].value, names);
      if Generate(fs[0].value, ts[0].value, true).Some? { GeneratedNames(fs[0].value, ts[0].value, names); }
    }
  }
}
