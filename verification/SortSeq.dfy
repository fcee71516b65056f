/** The order sort_list produces, as a function on sequences of keyed values.  The in-place
    method in SiblingList is proved to compute exactly this function. */
module SortSeq {
  import opened CStrings

  datatype Keyed<T> = Keyed(key: string, value: T)

  function Compare<T>(a: Keyed<T>, b: Keyed<T>, caseSensitive: bool): int {
    CompareStrings(a.key, b.key, caseSensitive)
  }

  /** The test that makes sort_list return early: every neighbour pair strictly increases. */
  predicate AlreadySorted<T>(s: seq<Keyed<T>>, caseSensitive: bool) {
    forall i :: 0 <= i < |s| - 1 ==> Compare(s[i], s[i + 1], caseSensitive) < 0
  }

  /** Merge takes from the left only when the left head is strictly smaller. */
  function Merge<T>(a: seq<Keyed<T>>, b: seq<Keyed<T>>, caseSensitive: bool): (r: seq<Keyed<T>>)
    ensures |r| == |a| + |b|
    ensures forall i :: 0 <= i < |r| ==> r[i] in a || r[i] in b
  {
    if a == [] then b
    else if b == [] then a
    else if Compare(a[0], b[0], caseSensitive) < 0 then [a[0]] + Merge(a[1..], b, caseSensitive)
    else [b[0]] + Merge(a, b[1..], caseSensitive)
  }

  function Middle(n: nat): nat { (n + 1) / 2 }

  function Sort<T>(s: seq<Keyed<T>>, caseSensitive: bool): (r: seq<Keyed<T>>)
    ensures |r| == |s|
    ensures forall i :: 0 <= i < |r| ==> r[i] in s
    decreases |s|
  {
    if |s| < 2 || AlreadySorted(s, caseSensitive) then s
    else
      var mid := Middle(|s|);
      assert s == s[..mid] + s[mid..];
      Merge(Sort(s[..mid], caseSensitive), Sort(s[mid..], caseSensitive), caseSensitive)
  }

  ghost predicate Ascending<T>(s: seq<Keyed<T>>, caseSensitive: bool) {
    forall i, j :: 0 <= i < j < |s| ==> Compare(s[i], s[j], caseSensitive) <= 0
  }

  ghost predicate StrictlyAscending<T>(s: seq<Keyed<T>>, caseSensitive: bool) {
    forall i, j :: 0 <= i < j < |s| ==> Compare(s[i], s[j], caseSensitive) < 0
  }

  ghost predicate DistinctKeys<T>(s: seq<Keyed<T>>, caseSensitive: bool) {
    forall i, j :: 0 <= i < j < |s| ==> Norm(s[i].key, caseSensitive) != Norm(s[j].key, caseSensitive)
  }

  lemma {:induction false} AdjacentImpliesStrict<T>(s: seq<Keyed<T>>, i: nat, j: nat, caseSensitive: bool)
    requires AlreadySorted(s, caseSensitive) && i < j < |s|
    ensures Compare(s[i], s[j], caseSensitive) < 0
    decreases j - i
  {
    assert Compare(s[j - 1], s[j - 1 + 1], caseSensitive) < 0;
    if i < j - 1 {
      AdjacentImpliesStrict(s, i, j - 1, caseSensitive);
      ComparisonTransitive(s[i].key, s[j - 1].key, s[j].key, caseSensitive);
    }
  }

  lemma {:induction false} MergeIsPermutation<T>(a: seq<Keyed<T>>, b: seq<Keyed<T>>, caseSensitive: bool)
    ensures multiset(Merge(a, b, caseSensitive)) == multiset(a) + multiset(b)
  {
    if a != [] && b != [] {
      assert a == [a[0]] + a[1..] && b == [b[0]] + b[1..];
      if Compare(a[0], b[0], caseSensitive) < 0 {
        MergeIsPermutation(a[1..], b, caseSensitive);
      } else {
        MergeIsPermutation(a, b[1..], caseSensitive);
      }
    }
  }

  ghost predicate LowerBound<T>(x: Keyed<T>, s: seq<Keyed<T>>, caseSensitive: bool) {
    forall i :: 0 <= i < |s| ==> Compare(x, s[i], caseSensitive) <= 0
  }

  lemma ConsAscending<T>(x: Keyed<T>, s: seq<Keyed<T>>, caseSensitive: bool)
    requires Ascending(s, caseSensitive) && LowerBound(x, s, caseSensitive)
    ensures Ascending([x] + s, caseSensitive)
  {
    forall i, j | 0 <= i < j < |[x] + s|
      ensures Compare(([x] + s)[i], ([x] + s)[j], caseSensitive) <= 0
    {
    }
  }

  lemma HeadIsLowerBound<T>(s: seq<Keyed<T>>, caseSensitive: bool)
    requires s != [] && Ascending(s, caseSensitive)
    ensures LowerBound(s[0], s, caseSensitive)
  {
    CompareZero(s[0].key, s[0].key, caseSensitive);
  }

  lemma {:induction false} MergeIsAscending<T>(a: seq<Keyed<T>>, b: seq<Keyed<T>>, caseSensitive: bool)
    requires Ascending(a, caseSensitive) && Ascending(b, caseSensitive)
    ensures Ascending(Merge(a, b, caseSensitive), caseSensitive)
  {
    if a != [] && b != [] {
      HeadIsLowerBound(a, caseSensitive);
      HeadIsLowerBound(b, caseSensitive);
      ComparisonAntisymmetric(a[0].key, b[0].key, caseSensitive);
      if Compare(a[0], b[0], caseSensitive) < 0 {
        MergeIsAscending(a[1..], b, caseSensitive);
        var rest := Merge(a[1..], b, caseSensitive);
        forall i | 0 <= i < |rest| ensures Compare(a[0], rest[i], caseSensitive) <= 0 {
          if rest[i] in b { ComparisonTransitive(a[0].key, b[0].key, rest[i].key, caseSensitive); }
        }
        ConsAscending(a[0], rest, caseSensitive);
      } else {
        MergeIsAscending(a, b[1..], caseSensitive);
        var rest := Merge(a, b[1..], caseSensitive);
        forall i | 0 <= i < |rest| ensures Compare(b[0], rest[i], caseSensitive) <= 0 {
          if rest[i] in a { ComparisonTransitive(b[0].key, a[0].key, rest[i].key, caseSensitive); }
        }
        ConsAscending(b[0], rest, caseSensitive);
      }
    }
  }

  lemma AlreadySortedIsAscending<T>(s: seq<Keyed<T>>, caseSensitive: bool)
    requires AlreadySorted(s, caseSensitive)
    ensures Ascending(s, caseSensitive)
  {
    forall i, j | 0 <= i < j < |s| ensures Compare(s[i], s[j], caseSensitive) <= 0 {
      AdjacentImpliesStrict(s, i, j, caseSensitive);
    }
  }

  lemma SplitMultiset<T>(s: seq<T>, mid: nat)
    requires mid <= |s|
    ensures multiset(s[..mid]) + multiset(s[mid..]) == multiset(s)
  {
    assert s == s[..mid] + s[mid..];
  }

  /** sort_list sorts: the result is an ascending permutation of its input. */
  lemma {:induction false} SortIsSortedPermutation<T>(s: seq<Keyed<T>>, caseSensitive: bool)
    ensures multiset(Sort(s, caseSensitive)) == multiset(s)
    ensures Ascending(Sort(s, caseSensitive), caseSensitive)
    decreases |s|
  {
    if |s| >= 2 {
      if AlreadySorted(s, caseSensitive) {
        AlreadySortedIsAscending(s, caseSensitive);
      } else {
        var mid := Middle(|s|);
        SortIsSortedPermutation(s[..mid], caseSensitive);
        SortIsSortedPermutation(s[mid..], caseSensitive);
        var l, r := Sort(s[..mid], caseSensitive), Sort(s[mid..], caseSensitive);
        assert Sort(s, caseSensitive) == Merge(l, r, caseSensitive);
        MergeIsPermutation(l, r, caseSensitive);
        MergeIsAscending(l, r, caseSensitive);
        SplitMultiset(s, mid);
      }
    }
  }

  lemma DistinctOccursOnce<T>(s: seq<Keyed<T>>, k: nat, caseSensitive: bool)
    requires DistinctKeys(s, caseSensitive) && k < |s|
    ensures multiset(s)[s[k]] == 1
  {
    assert s == s[..k] + [s[k]] + s[k + 1..];
    assert s[k] !in s[..k] && s[k] !in s[k + 1..];
  }

  lemma OccursTwice<T>(s: seq<T>, i: nat, j: nat)
    requires i < j < |s| && s[i] == s[j]
    ensures multiset(s)[s[i]] >= 2
  {
    assert s == s[..i] + [s[i]] + s[i + 1..];
    assert s[j] in s[i + 1..];
  }

  /** A permutation of distinct keys has distinct keys. */
  lemma PermutationKeepsDistinct<T>(s: seq<Keyed<T>>, t: seq<Keyed<T>>, caseSensitive: bool)
    requires multiset(s) == multiset(t) && DistinctKeys(s, caseSensitive)
    ensures DistinctKeys(t, caseSensitive)
  {
    forall i, j | 0 <= i < j < |t|
      ensures Norm(t[i].key, caseSensitive) != Norm(t[j].key, caseSensitive)
    {
      assert t[i] in multiset(s) && t[j] in multiset(s);
      var k :| 0 <= k < |s| && s[k] == t[i];
      var l :| 0 <= l < |s| && s[l] == t[j];
      DistinctOccursOnce(s, k, caseSensitive);
      if k == l { OccursTwice(t, i, j); }
    }
  }

  /** On distinct keys the sorted order is strict. */
  lemma SortIsStrict<T>(s: seq<Keyed<T>>, caseSensitive: bool)
    requires DistinctKeys(s, caseSensitive)
    ensures StrictlyAscending(Sort(s, caseSensitive), caseSensitive)
    ensures DistinctKeys(Sort(s, caseSensitive), caseSensitive)
  {
    SortIsSortedPermutation(s, caseSensitive);
    var t := Sort(s, caseSensitive);
    PermutationKeepsDistinct(s, t, caseSensitive);
    forall i, j | 0 <= i < j < |t| ensures Compare(t[i], t[j], caseSensitive) < 0 {
      CompareZero(t[i].key, t[j].key, caseSensitive);
    }
  }
}
