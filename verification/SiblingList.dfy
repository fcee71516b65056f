/** The doubly linked sibling lists under an array or object, changed in place: sort_list and the
    list edits.  Each method is tied to the sequence function the tree-level model uses. */
module SiblingList {
  import opened CStrings
  import opened SortSeq

  class Node {
    const key: string
    var next: Node?
    var prev: Node?

    constructor (key: string)
      ensures this.key == key && next == null && prev == null
    {
      this.key := key;
      next, prev := null, null;
    }
  }

  function At(s: seq<Node>, i: nat): Node? { if i < |s| then s[i] else null }

  function Before(s: seq<Node>, i: nat): Node?
    requires i <= |s|
  {
    if i == 0 then null else s[i - 1]
  }

  ghost predicate NoDuplicates(s: seq<Node>) { forall i, j :: 0 <= i < j < |s| ==> s[i] != s[j] }

  ghost predicate NextFrom(s: seq<Node>, start: nat)
    reads s
  {
    forall k {:trigger s[k].next} :: start <= k < |s| ==> s[k].next == At(s, k + 1)
  }

  ghost predicate PrevFrom(s: seq<Node>, start: nat)
    reads s
  {
    forall k {:trigger s[k].prev} :: start <= k < |s| ==> s[k].prev == Before(s, k)
  }

  /** The nodes of s are linked both ways in this order, with NULL at both ends. */
  ghost predicate Linked(s: seq<Node>)
    reads s
  {
    NoDuplicates(s) && NextFrom(s, 0) && PrevFrom(s, 0)
  }

  ghost predicate Disjoint(a: seq<Node>, b: seq<Node>) {
    forall i, j :: 0 <= i < |a| && 0 <= j < |b| ==> a[i] != b[j]
  }

  /** The nodes with their keys, the form the sorting function works on. */
  ghost function Tagged(s: seq<Node>): (r: seq<Keyed<Node>>)
    ensures |r| == |s|
    ensures forall i :: 0 <= i < |s| ==> r[i] == Keyed(s[i].key, s[i])
  {
    seq(|s|, i requires 0 <= i < |s| => Keyed(s[i].key, s[i]))
  }

  lemma TaggedSlice(s: seq<Node>, i: nat)
    requires i <= |s|
    ensures Tagged(s[..i]) == Tagged(s)[..i] && Tagged(s[i..]) == Tagged(s)[i..]
  {
  }

  lemma TaggedAppend(a: seq<Node>, b: seq<Node>)
    ensures Tagged(a + b) == Tagged(a) + Tagged(b)
  {
  }

  predicate Less(a: Node, b: Node, cs: bool) { CompareStrings(a.key, b.key, cs) < 0 }

  lemma SortedByNeighbours(s: seq<Node>, cs: bool)
    ensures AlreadySorted(Tagged(s), cs) <==> forall k :: 0 <= k < |s| - 1 ==> Less(s[k], s[k + 1], cs)
  {
    var t := Tagged(s);
    forall k | 0 <= k < |s| - 1 ensures Compare(t[k], t[k + 1], cs) < 0 <==> Less(s[k], s[k + 1], cs) { }
  }

  /** Does sort_list find the list already sorted? */
  method IsSorted(list: Node, ghost s: seq<Node>, cs: bool) returns (sorted: bool)
    requires Linked(s) && s != [] && list == s[0]
    ensures sorted == AlreadySorted(Tagged(s), cs)
  {
    SortedByNeighbours(s, cs);
    var current := list;
    ghost var i := 0;
    while current.next != null && Less(current, current.next, cs)
      invariant i < |s| && current == s[i]
      invariant forall k :: 0 <= k < i ==> Less(s[k], s[k + 1], cs)
      decreases |s| - i
    {
      current := current.next;
      i := i + 1;
    }
    sorted := current.next == null;
    assert !sorted ==> !Less(s[i], s[i + 1], cs);
  }

  /** Walk two pointers, one at double speed, to find the middle. */
  method FindMiddle(list: Node, ghost s: seq<Node>) returns (second: Node?)
    requires Linked(s) && |s| >= 2 && list == s[0]
    ensures second == s[Middle(|s|)]
  {
    second := list;
    var current: Node? := list;
    ghost var a, b := 0, 0;
    while current != null
      invariant a <= |s| && b == (if 2 * a <= |s| then 2 * a else |s|)
      invariant a > 0 ==> 2 * (a - 1) < |s|
      invariant second == At(s, a) && current == At(s, b)
      decreases |s| - b
    {
      second := second.next;
      current := current.next;
      a, b := a + 1, b + 1;
      if current != null {
        current := current.next;
        b := b + 1;
      }
    }
  }

  /** Cut the list in front of its middle node. */
  method Split(list: Node, ghost s: seq<Node>) returns (second: Node?)
    requires Linked(s) && |s| >= 2 && list == s[0]
    modifies s
    ensures Linked(s[..Middle(|s|)]) && Linked(s[Middle(|s|)..])
    ensures second == s[Middle(|s|)]
  {
    second := FindMiddle(list, s);
    assert second.prev == s[Middle(|s|) - 1];
    second.prev.next := null;
    second.prev := null;
  }

  lemma HalvesAreDisjoint(s: seq<Node>, mid: nat, ta: seq<Node>, tb: seq<Node>)
    requires NoDuplicates(s) && mid <= |s|
    requires forall i :: 0 <= i < |ta| ==> ta[i] in s[..mid]
    requires forall i :: 0 <= i < |tb| ==> tb[i] in s[mid..]
    ensures Disjoint(ta, tb)
  {
    forall i, j | 0 <= i < |ta| && 0 <= j < |tb| ensures ta[i] != tb[j] {
      var k :| 0 <= k < |s[..mid]| && s[..mid][k] == ta[i];
      var l :| 0 <= l < |s[mid..]| && s[mid..][l] == tb[j];
      assert s[k] == ta[i] && s[mid + l] == tb[j];
    }
  }

  /** Sorting keeps the nodes. */
  lemma SortedNodes(s: seq<Node>, t: seq<Node>, cs: bool)
    requires Tagged(t) == Sort(Tagged(s), cs)
    ensures |t| == |s| && forall i :: 0 <= i < |t| ==> t[i] in s
  {
    forall i | 0 <= i < |t| ensures t[i] in s {
      assert Tagged(t)[i] in Tagged(s);
      var k :| 0 <= k < |s| && Tagged(s)[k] == Tagged(t)[i];
      assert s[k] == t[i];
    }
  }

  /** sort_list: an in-place merge sort of a sibling list. */
  method SortList(list: Node?, ghost s: seq<Node>, cs: bool) returns (r: Node?, ghost t: seq<Node>)
    requires Linked(s) && list == At(s, 0)
    modifies s
    ensures Linked(t) && r == At(t, 0)
    ensures Tagged(t) == Sort(Tagged(s), cs)
    decreases |s|
  {
    if list == null || list.next == null { return list, s; }
    var sorted := IsSorted(list, s, cs);
    if sorted { return list, s; }
    var second := Split(list, s);
    r, t := SortHalves(list, second, s, cs);
  }

  lemma SortUnfolds(s: seq<Node>, cs: bool)
    requires |s| >= 2 && !AlreadySorted(Tagged(s), cs)
    ensures Sort(Tagged(s), cs) == Merge(Sort(Tagged(s[..Middle(|s|)]), cs), Sort(Tagged(s[Middle(|s|)..]), cs), cs)
  {
    TaggedSlice(s, Middle(|s|));
  }

  /** Sort both halves and merge them. */
  method SortHalves(list: Node?, second: Node?, ghost s: seq<Node>, cs: bool) returns (r: Node?, ghost t: seq<Node>)
    requires |s| >= 2 && NoDuplicates(s) && !AlreadySorted(Tagged(s), cs)
    requires Linked(s[..Middle(|s|)]) && Linked(s[Middle(|s|)..]) && list == s[0] && second == s[Middle(|s|)]
    modifies s
    ensures Linked(t) && r == At(t, 0)
    ensures Tagged(t) == Sort(Tagged(s), cs)
    decreases |s|, 0
  {
    ghost var left, right := s[..Middle(|s|)], s[Middle(|s|)..];
    HalvesAreDisjoint(s, Middle(|s|), left, right);
    var a, ta, b, tb := SortBoth(list, second, left, right, |s|, cs);
    SortedNodes(left, ta, cs);
    SortedNodes(right, tb, cs);
    HalvesAreDisjoint(s, Middle(|s|), ta, tb);
    SortUnfolds(s, cs);
    r, t := MergeLists(a, b, ta, tb, cs);
  }

  method SortBoth(list: Node?, second: Node?, ghost left: seq<Node>, ghost right: seq<Node>, ghost n: nat, cs: bool)
    returns (a: Node?, ghost ta: seq<Node>, b: Node?, ghost tb: seq<Node>)
    requires |left| < n && |right| < n && Disjoint(left, right)
    requires Linked(left) && Linked(right) && list == At(left, 0) && second == At(right, 0)
    modifies left, right
    ensures Linked(ta) && Linked(tb) && a == At(ta, 0) && b == At(tb, 0)
    ensures Tagged(ta) == Sort(Tagged(left), cs) && Tagged(tb) == Sort(Tagged(right), cs)
    decreases n, 0, 0
  {
    a, ta := SortList(list, left, cs);
    SortedNodes(left, ta, cs);
    assert forall k :: 0 <= k < |ta| ==> ta[k] !in right;
    b, tb := SortList(second, right, cs);
  }

  /** The state of the merge: `out` is linked except for the next field of its last node, the rest
      of both inputs is as it was. */
  ghost predicate Merging(out: seq<Node>, ta: seq<Node>, i: nat, tb: seq<Node>, j: nat)
    requires i <= |ta| && j <= |tb|
    reads out, ta, tb
  {
    NoDuplicates(out) && Disjoint(out, ta[i..]) && Disjoint(out, tb[j..]) &&
    PrevFrom(out, 0) && (forall k :: 0 <= k < |out| - 1 ==> out[k].next == out[k + 1]) &&
    NextFrom(ta, i) && PrevFrom(ta, i) && NextFrom(tb, j) && PrevFrom(tb, j) &&
    NoDuplicates(ta) && NoDuplicates(tb) && Disjoint(ta, tb) &&
    (out == [] ==> i == 0 && j == 0)
  }

  /** Hang the next node of ta on the tail of the merged list. */
  method Take(tail: Node?, smaller: Node, ghost out: seq<Node>, ghost ta: seq<Node>, ghost i: nat,
              ghost tb: seq<Node>, ghost j: nat)
    requires i < |ta| && j <= |tb| && Merging(out, ta, i, tb, j)
    requires tail == Before(out, |out|) && smaller == ta[i]
    modifies if tail == null then {} else {tail, smaller}
    ensures Merging(out + [smaller], ta, i + 1, tb, j)
    ensures smaller.next == At(ta, i + 1)
  {
    assert smaller == ta[i..][0];
    assert tail != null ==> tail == out[|out| - 1] && tail !in ta[i..] && tail !in tb[j..];
    if tail != null {
      tail.next := smaller;
      smaller.prev := tail;
    }
    ghost var next := out + [smaller];
    forall k | 0 <= k < |next| - 1 ensures next[k].next == next[k + 1] { }
    assert Disjoint(next, ta[i + 1..]);
    assert Disjoint(next, tb[j..]);
  }

  /** Append what is left of one input. */
  method Append(tail: Node, rest: Node, ghost out: seq<Node>, ghost ta: seq<Node>, ghost i: nat, ghost tb: seq<Node>)
    requires i < |ta| && out != [] && Merging(out, ta, i, tb, |tb|)
    requires tail == out[|out| - 1] && rest == ta[i]
    modifies tail, rest
    ensures Linked(out + ta[i..])
  {
    ghost var t := out + ta[i..];
    assert rest == ta[i..][0] && tail !in ta[i..];
    tail.next := rest;
    rest.prev := tail;
    assert NextFrom(t, 0);
    assert PrevFrom(t, 0);
  }

  lemma MergingIsSymmetric(out: seq<Node>, ta: seq<Node>, i: nat, tb: seq<Node>, j: nat)
    requires i <= |ta| && j <= |tb| && Merging(out, ta, i, tb, j)
    ensures Merging(out, tb, j, ta, i)
  {
  }

  function KeyedOf(n: Node): Keyed<Node> { Keyed(n.key, n) }

  lemma MergeUnfolds(ta: seq<Node>, i: nat, tb: seq<Node>, j: nat, cs: bool)
    requires i < |ta| && j < |tb|
    ensures Merge(Tagged(ta[i..]), Tagged(tb[j..]), cs) ==
            if Less(ta[i], tb[j], cs) then [KeyedOf(ta[i])] + Merge(Tagged(ta[i + 1..]), Tagged(tb[j..]), cs)
            else [KeyedOf(tb[j])] + Merge(Tagged(ta[i..]), Tagged(tb[j + 1..]), cs)
  {
    TaggedSlice(ta[i..], 1);
    TaggedSlice(tb[j..], 1);
    assert ta[i..][1..] == ta[i + 1..] && tb[j..][1..] == tb[j + 1..];
  }

  ghost predicate MergedSoFar(out: seq<Node>, ta: seq<Node>, i: nat, tb: seq<Node>, j: nat, cs: bool)
    requires i <= |ta| && j <= |tb|
  {
    Tagged(out) + Merge(Tagged(ta[i..]), Tagged(tb[j..]), cs) == Merge(Tagged(ta), Tagged(tb), cs)
  }

  lemma Reassociate<T>(a: seq<T>, x: T, m: seq<T>)
    ensures a + ([x] + m) == (a + [x]) + m
  {
  }

  lemma TaggedSnoc(out: seq<Node>, n: Node)
    ensures Tagged(out + [n]) == Tagged(out) + [KeyedOf(n)]
  {
  }

  lemma MergeAdvances(out: seq<Node>, ta: seq<Node>, i: nat, tb: seq<Node>, j: nat, cs: bool)
    requires i < |ta| && j < |tb| && MergedSoFar(out, ta, i, tb, j, cs)
    ensures if Less(ta[i], tb[j], cs) then MergedSoFar(out + [ta[i]], ta, i + 1, tb, j, cs)
            else MergedSoFar(out + [tb[j]], ta, i, tb, j + 1, cs)
  {
    MergeUnfolds(ta, i, tb, j, cs);
    var takeFirst := Less(ta[i], tb[j], cs);
    var n := if takeFirst then ta[i] else tb[j];
    var i', j' := if takeFirst then i + 1 else i, if takeFirst then j else j + 1;
    TaggedSnoc(out, n);
    Reassociate(Tagged(out), KeyedOf(n), Merge(Tagged(ta[i'..]), Tagged(tb[j'..]), cs));
  }

  lemma MergeFinished(out: seq<Node>, ta: seq<Node>, i: nat, tb: seq<Node>, j: nat, cs: bool)
    requires i <= |ta| && j <= |tb| && MergedSoFar(out, ta, i, tb, j, cs) && (i == |ta| || j == |tb|)
    ensures Tagged(out + (if i < |ta| then ta[i..] else tb[j..])) == Merge(Tagged(ta), Tagged(tb), cs)
  {
    TaggedAppend(out, if i < |ta| then ta[i..] else tb[j..]);
  }

  /** Merge two sorted lists by relinking their nodes. */
  method MergeLists(a: Node?, b: Node?, ghost ta: seq<Node>, ghost tb: seq<Node>, cs: bool)
    returns (result: Node?, ghost t: seq<Node>)
    requires Linked(ta) && Linked(tb) && Disjoint(ta, tb) && a == At(ta, 0) && b == At(tb, 0)
    modifies ta, tb
    ensures Linked(t) && result == At(t, 0)
    ensures Tagged(t) == Merge(Tagged(ta), Tagged(tb), cs)
  {
    hide Tagged, Merge, Less;
    var first, second := a, b;
    result := null;
    var tail: Node? := null;
    ghost var i, j := 0, 0;
    ghost var out: seq<Node> := [];
    assert MergedSoFar(out, ta, i, tb, j, cs) by { assert ta[0..] == ta && tb[0..] == tb; }
    while first != null && second != null
      invariant i <= |ta| && j <= |tb| && first == At(ta, i) && second == At(tb, j)
      invariant result == At(out, 0) && tail == Before(out, |out|)
      invariant forall k :: 0 <= k < |out| ==> out[k] in ta || out[k] in tb
      invariant Merging(out, ta, i, tb, j)
      invariant MergedSoFar(out, ta, i, tb, j, cs)
      invariant out != [] ==> first != null || second != null
      decreases |ta| - i + |tb| - j
    {
      MergeAdvances(out, ta, i, tb, j, cs);
      ghost var n := if Less(first, second, cs) then first else second;
      first, second, tail, i, j := TakeSmaller(first, second, tail, out, ta, i, tb, j, cs);
      out := out + [n];
      if result == null { result := tail; }
    }
    MergeFinished(out, ta, i, tb, j, cs);
    t := out + (if i < |ta| then ta[i..] else tb[j..]);
    result := Finish(result, tail, first, second, out, ta, i, tb, j);
  }

  method TakeSmaller(first: Node, second: Node, tail: Node?, ghost out: seq<Node>,
                     ghost ta: seq<Node>, ghost i: nat, ghost tb: seq<Node>, ghost j: nat, cs: bool)
    returns (first': Node?, second': Node?, tail': Node, ghost i': nat, ghost j': nat)
    requires i < |ta| && j < |tb| && Merging(out, ta, i, tb, j)
    requires first == ta[i] && second == tb[j] && tail == Before(out, |out|)
    modifies if tail == null then {} else {tail, first, second}
    ensures tail' == if Less(first, second, cs) then first else second
    ensures i' == (if Less(first, second, cs) then i + 1 else i) && j' == (if Less(first, second, cs) then j else j + 1)
    ensures first' == At(ta, i') && second' == At(tb, j')
    ensures Merging(out + [tail'], ta, i', tb, j')
  {
    if Less(first, second, cs) {
      Take(tail, first, out, ta, i, tb, j);
      first', second', tail', i', j' := first.next, second, first, i + 1, j;
    } else {
      MergingIsSymmetric(out, ta, i, tb, j);
      Take(tail, second, out, tb, j, ta, i);
      MergingIsSymmetric(out + [second], tb, j + 1, ta, i);
      first', second', tail', i', j' := first, second.next, second, i, j + 1;
    }
  }

  /** Append the rest of the longer list; with nothing merged yet, that list is the result. */
  method Finish(result: Node?, tail: Node?, first: Node?, second: Node?, ghost out: seq<Node>,
                ghost ta: seq<Node>, ghost i: nat, ghost tb: seq<Node>, ghost j: nat) returns (r: Node?)
    requires i <= |ta| && j <= |tb| && (i == |ta| || j == |tb|) && Merging(out, ta, i, tb, j)
    requires first == At(ta, i) && second == At(tb, j) && tail == Before(out, |out|) && result == At(out, 0)
    requires out != [] ==> first != null || second != null
    modifies out, ta, tb
    ensures Linked(out + (if i < |ta| then ta[i..] else tb[j..]))
    ensures r == At(out + (if i < |ta| then ta[i..] else tb[j..]), 0)
  {
    if result == null {
      r := if first != null then first else second;
      assert out + (if i < |ta| then ta[i..] else tb[j..]) == if i < |ta| then ta else tb;
    } else {
      r := result;
      if first != null {
        Append(tail, first, out, ta, i, tb);
      } else {
        MergingIsSymmetric(out, ta, i, tb, j);
        Append(tail, second, out, tb, j, ta);
      }
    }
  }
}
