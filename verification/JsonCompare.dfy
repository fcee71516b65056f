/** compare_json: sort both objects, then walk them side by side.  It decides exactly whether two
    trees mean the same, objects taken as maps. */
module JsonCompare {
  import opened CStrings
  import opened SortSeq
  import opened JsonValue

  predicate CompareJson(a: Json, b: Json, cs: bool) {
    match (a, b)
    case (Number(i, d), Number(i', d')) => i == i' && d == d'
    case (Str(s), Str(s')) => s == s'
    case (Array(x), Array(y)) =>
      |x| == |y| && forall i :: 0 <= i < |x| ==> CompareJson(x[i], y[i], cs)
    case (Object(x), Object(y)) =>
      var s, t := Sort(x, cs), Sort(y, cs);
      |s| == |t| &&
      forall i :: 0 <= i < |s| ==>
        CompareStrings(s[i].key, t[i].key, cs) == 0 && CompareJson(s[i].value, t[i].value, cs)
    case (Invalid, Invalid) => true
    case (False, False) => true
    case (True, True) => true
    case (Null, Null) => true
    case _ => false
  }

  /** The loops of compare_json, stopping at the first difference. */
  method CompareJsonLoop(a: Json, b: Json, cs: bool) returns (same: bool)
    ensures same == CompareJson(a, b, cs)
    decreases a
  {
    hide Sort, CompareStrings;
    if a.Array? && b.Array? {
      var i := 0;
      while i < |a.items| && i < |b.items|
        invariant i <= |a.items| && i <= |b.items|
        invariant forall k :: 0 <= k < i ==> CompareJson(a.items[k], b.items[k], cs)
      {
        var identical := CompareJsonLoop(a.items[i], b.items[i], cs);
        if !identical { return false; }
        i := i + 1;
      }
      return i == |a.items| && i == |b.items|;
    } else if a.Object? && b.Object? {
      var s, t := Sort(a.members, cs), Sort(b.members, cs);
      var i := 0;
      while i < |s| && i < |t|
        invariant i <= |s| && i <= |t|
        invariant forall k :: 0 <= k < i ==>
          CompareStrings(s[k].key, t[k].key, cs) == 0 && CompareJson(s[k].value, t[k].value, cs)
      {
        if CompareStrings(s[i].key, t[i].key, cs) != 0 { return false; }
        assert s[i] in a.members;
        var identical := CompareJsonLoop(s[i].value, t[i].value, cs);
        if !identical { return false; }
        i := i + 1;
      }
      return i == |s| && i == |t|;
    } else {
      return match (a, b)
        case (Number(i, d), Number(i', d')) => i == i' && d == d'
        case (Str(s), Str(s')) => s == s'
        case (Invalid, Invalid) => true
        case (False, False) => true
        case (True, True) => true
        case (Null, Null) => true
        case _ => false;
    }
  }

  predicate SamePairs(s: seq<Member>, t: seq<Member>, cs: bool) {
    |s| == |t| &&
    forall i :: 0 <= i < |s| ==>
      CompareStrings(s[i].key, t[i].key, cs) == 0 && CompareJson(s[i].value, t[i].value, cs)
  }

  lemma SmallestKeyMissing(s: seq<Member>, t: seq<Member>, cs: bool)
    requires s != [] && t != []
    requires StrictlyAscending(t, cs)
    requires CompareStrings(s[0].key, t[0].key, cs) < 0
    ensures Norm(s[0].key, cs) !in ViewMembers(t, cs)
  {
    ViewKeys(t, cs, Norm(s[0].key, cs));
    forall i | 0 <= i < |t| ensures Norm(t[i].key, cs) != Norm(s[0].key, cs) {
      if i > 0 {
        assert Compare(t[0], t[i], cs) < 0;
        ComparisonTransitive(s[0].key, t[0].key, t[i].key, cs);
      }
      CompareZero(s[0].key, t[i].key, cs);
    }
  }

  lemma HeadKeyOnce(s: seq<Member>, cs: bool)
    requires s != [] && DistinctKeys(s, cs)
    ensures Norm(s[0].key, cs) !in ViewMembers(s[1..], cs)
  {
    ViewKeys(s[1..], cs, Norm(s[0].key, cs));
  }

  /** Two strictly sorted member lists agree pair by pair exactly when they mean the same map. */
  lemma {:induction false} SamePairsIffSameMap(s: seq<Member>, t: seq<Member>, cs: bool)
    requires StrictlyAscending(s, cs) && StrictlyAscending(t, cs)
    requires DistinctKeys(s, cs) && DistinctKeys(t, cs)
    requires forall i, j :: 0 <= i < |s| && 0 <= j < |t| ==>
      (CompareJson(s[i].value, t[j].value, cs) <==> View(s[i].value, cs) == View(t[j].value, cs))
    ensures SamePairs(s, t, cs) <==> ViewMembers(s, cs) == ViewMembers(t, cs)
  {
    var vs, vt := ViewMembers(s, cs), ViewMembers(t, cs);
    if s == [] || t == [] {
      if s != [] { assert Norm(s[0].key, cs) in vs; }
      if t != [] { assert Norm(t[0].key, cs) in vt; }
    } else {
      var k, l := Norm(s[0].key, cs), Norm(t[0].key, cs);
      CompareZero(s[0].key, t[0].key, cs);
      ComparisonAntisymmetric(s[0].key, t[0].key, cs);
      if CompareStrings(s[0].key, t[0].key, cs) < 0 {
        SmallestKeyMissing(s, t, cs);
        assert k in vs;
      } else if CompareStrings(s[0].key, t[0].key, cs) > 0 {
        SmallestKeyMissing(t, s, cs);
        assert l in vt;
      } else {
        HeadKeyOnce(s, cs);
        HeadKeyOnce(t, cs);
        SamePairsIffSameMap(s[1..], t[1..], cs);
        SplitPairs(s, t, cs);
        ExtendedMapsEqual(ViewMembers(s[1..], cs), ViewMembers(t[1..], cs), k, View(s[0].value, cs),
            View(t[0].value, cs));
      }
    }
  }

  lemma ExtendedMapsEqual(m: map<string, Tree>, n: map<string, Tree>, k: string, x: Tree, y: Tree)
    requires k !in m && k !in n
    ensures m[k := x] == n[k := y] <==> x == y && m == n
  {
    if m[k := x] == n[k := y] {
      assert m == m[k := x] - {k} && n == n[k := y] - {k};
      assert m[k := x][k] == n[k := y][k];
    }
  }

  lemma SplitPairs(s: seq<Member>, t: seq<Member>, cs: bool)
    requires s != [] && t != [] && CompareStrings(s[0].key, t[0].key, cs) == 0
    ensures SamePairs(s, t, cs) <==>
            CompareJson(s[0].value, t[0].value, cs) && SamePairs(s[1..], t[1..], cs)
  {
    if CompareJson(s[0].value, t[0].value, cs) && SamePairs(s[1..], t[1..], cs) {
      forall i | 0 <= i < |s|
        ensures CompareStrings(s[i].key, t[i].key, cs) == 0 && CompareJson(s[i].value, t[i].value, cs)
      {
        if i > 0 { assert s[1..][i - 1] == s[i] && t[1..][i - 1] == t[i]; }
      }
    }
  }

  /** compare_json answers true exactly for trees that mean the same. */
  lemma {:induction false} CompareDecidesMeaning(a: Json, b: Json, cs: bool)
    requires WellFormed(a, cs) && WellFormed(b, cs)
    ensures CompareJson(a, b, cs) <==> View(a, cs) == View(b, cs)
  {
    hide Sort, CompareStrings, Norm, ViewMembers, DistinctKeys;
    match (a, b)
    case (Array(x), Array(y)) =>
      forall i | 0 <= i < |x| && i < |y|
        ensures CompareJson(x[i], y[i], cs) <==> View(x[i], cs) == View(y[i], cs)
      {
        CompareDecidesMeaning(x[i], y[i], cs);
      }
      if |x| == |y| && (forall i :: 0 <= i < |x| ==> View(x[i], cs) == View(y[i], cs)) {
        assert ViewItems(x, cs) == ViewItems(y, cs);
      }
      if ViewItems(x, cs) == ViewItems(y, cs) {
        forall i | 0 <= i < |x| ensures View(x[i], cs) == View(y[i], cs) {
          assert ViewItems(x, cs)[i] == ViewItems(y, cs)[i];
        }
      }
    case (Object(x), Object(y)) =>
      var s, t := Sort(x, cs), Sort(y, cs);
      SortIsStrict(x, cs);
      SortIsStrict(y, cs);
      SortKeepsMeaning(x, cs, cs);
      SortKeepsMeaning(y, cs, cs);
      forall i, j | 0 <= i < |s| && 0 <= j < |t|
        ensures CompareJson(s[i].value, t[j].value, cs) <==> View(s[i].value, cs) == View(t[j].value, cs)
      {
        assert s[i] in x && t[j] in y;
        CompareDecidesMeaning(s[i].value, t[j].value, cs);
      }
      SamePairsIffSameMap(s, t, cs);
      assert CompareJson(a, b, cs) == SamePairs(s, t, cs);
    case _ =>
  }
}
