/** The kernel's circular doubly linked list with its end marker and its walking index. */
module RtosList {
  import opened Common

  const MAX_DELAY: nat := 0xFFFFFFFF

  class Item {
    var value: nat
    var next: Item?
    var prev: Item?
    var container: List?
    const owner: nat

    /** vListInitialiseItem, with the owner set. */
    constructor (owner: nat)
      ensures this.owner == owner && container == null
    {
      this.owner, container, next, prev, value := owner, null, null, null, 0;
    }
  }

  // ---------- What the operations do to the order ----------

  /** The entries in the order successive calls return them: from the one after the index around to
      the index itself.  `pos` counts the marker: 0 is the marker, p > 0 is item p - 1. */
  function WalkOrder<T>(items: seq<T>, pos: nat): seq<T>
    requires pos <= |items|
  {
    items[pos..] + items[..pos]
  }

  /** Where the index goes with one call: past the marker. */
  function NextPos(n: nat, pos: nat): (p: nat)
    requires 0 < n && pos <= n
    ensures 0 < p <= n
  {
    if pos == n then 1 else pos + 1
  }

  /** Where vListInsertEnd puts the new item: just before the index. */
  function EndPlace(n: nat, pos: nat): (k: nat)
    requires pos <= n
    ensures k <= n
  {
    if pos == 0 then n else pos - 1
  }

  /** Where a value is inserted: before the first larger one. */
  function FirstAbove(values: seq<nat>, v: nat): (k: nat)
    ensures k <= |values|
    ensures forall i :: 0 <= i < k ==> values[i] <= v
    ensures k < |values| ==> values[k] > v
  {
    if values == [] || values[0] > v then 0 else 1 + FirstAbove(values[1..], v)
  }

  ghost function ValuesOf(items: seq<Item>): (v: seq<nat>)
    reads items`value
    ensures |v| == |items|
    ensures forall i :: 0 <= i < |items| ==> v[i] == items[i].value
  {
    if items == [] then [] else [items[0].value] + ValuesOf(items[1..])
  }

  // ---------- Rings of linked items ----------

  /** The marker first and last, and nothing twice in between. */
  ghost predicate IsRing(r: seq<Item>) {
    |r| >= 2 && r[0] == r[|r| - 1] && forall i, j :: 0 <= i < j < |r| - 1 ==> r[i] != r[j]
  }

  ghost predicate NextLinks(r: seq<Item>)
    reads r`next
  {
    forall i {:trigger r[i].next} :: 0 <= i < |r| - 1 ==> r[i].next == r[i + 1]
  }

  ghost predicate PrevLinks(r: seq<Item>)
    reads r`prev
  {
    forall i {:trigger r[i].prev} :: 0 < i < |r| ==> r[i].prev == r[i - 1]
  }

  /** In a ring, an item that is not the one at position k stands at another position. */
  lemma OtherPosition(r: seq<Item>, i: nat, k: nat)
    requires IsRing(r) && i < |r| && k < |r| && i != k
    requires !(i == 0 && k == |r| - 1) && !(i == |r| - 1 && k == 0)
    ensures r[i] != r[k]
  {
  }

  lemma InsertedRing(r: seq<Item>, x: Item, k: nat)
    requires IsRing(r) && k < |r| - 1 && x !in r
    ensures IsRing(InsertAt(r, k + 1, x))
  {
  }

  lemma RemovedRing(r: seq<Item>, k: nat)
    requires IsRing(r) && 0 < k < |r| - 1
    ensures IsRing(RemoveAt(r, k))
  {
  }

  /** The links of the items of a ring, to be compared with the links after an operation. */
  ghost function Nexts(r: seq<Item>): map<Item, Item?>
    reads r`next
  {
    map y | y in r :: y.next
  }

  ghost function Prevs(r: seq<Item>): map<Item, Item?>
    reads r`prev
  {
    map y | y in r :: y.prev
  }

  ghost predicate Follows(r: seq<Item>, nexts: map<Item, Item?>, prevs: map<Item, Item?>) {
    IsRing(r) && (forall y :: y in r ==> y in nexts && y in prevs) &&
    (forall i {:trigger nexts[r[i]]} :: 0 <= i < |r| - 1 ==> nexts[r[i]] == r[i + 1]) &&
    (forall i {:trigger prevs[r[i]]} :: 0 < i < |r| ==> prevs[r[i]] == r[i - 1])
  }

  lemma LinksFollow(r: seq<Item>)
    requires IsRing(r) && NextLinks(r) && PrevLinks(r)
    ensures Follows(r, Nexts(r), Prevs(r))
  {
  }

  /** x is linked in behind position k, and nothing else was relinked: then the ring with x inserted is
      linked. */
  lemma LinkedIn(r: seq<Item>, nexts: map<Item, Item?>, prevs: map<Item, Item?>, x: Item, k: nat)
    requires Follows(r, nexts, prevs) && k < |r| - 1 && x !in r
    requires r[k].next == x && x.next == r[k + 1] && x.prev == r[k] && r[k + 1].prev == x
    requires forall y {:trigger y.next} :: y in r && y != r[k] ==> y.next == nexts[y]
    requires forall y {:trigger y.prev} :: y in r && y != r[k + 1] ==> y.prev == prevs[y]
    ensures var s := InsertAt(r, k + 1, x); IsRing(s) && NextLinks(s) && PrevLinks(s)
  {
    InsertedRing(r, x, k);
    var s := InsertAt(r, k + 1, x);
    forall i | 0 <= i < |s| - 1 ensures s[i].next == s[i + 1] {
      if i < k { OtherPosition(r, i, k); }
      if i > k + 1 { OtherPosition(r, i - 1, k); }
    }
    forall i | 0 < i < |s| ensures s[i].prev == s[i - 1] {
      if i <= k { OtherPosition(r, i, k + 1); }
      if i > k + 2 { OtherPosition(r, i - 1, k + 1); }
    }
  }

  /** The item at position k is linked out, and nothing else was relinked. */
  lemma LinkedOut(r: seq<Item>, nexts: map<Item, Item?>, prevs: map<Item, Item?>, k: nat)
    requires Follows(r, nexts, prevs) && 0 < k < |r| - 1
    requires r[k - 1].next == r[k + 1] && r[k + 1].prev == r[k - 1]
    requires forall y {:trigger y.next} :: y in r && y != r[k - 1] ==> y.next == nexts[y]
    requires forall y {:trigger y.prev} :: y in r && y != r[k + 1] ==> y.prev == prevs[y]
    ensures var s := RemoveAt(r, k); IsRing(s) && NextLinks(s) && PrevLinks(s)
  {
    RemovedRing(r, k);
    var s := RemoveAt(r, k);
    forall i | 0 <= i < |s| - 1 ensures s[i].next == s[i + 1] {
      if i < k - 1 { OtherPosition(r, i, k - 1); }
      if i >= k { OtherPosition(r, i + 1, k - 1); }
    }
    forall i | 0 < i < |s| ensures s[i].prev == s[i - 1] {
      if i < k { OtherPosition(r, i, k + 1); }
      if i > k { OtherPosition(r, i + 1, k + 1); }
    }
  }

  /** Where things stand after an insertion or a removal. */
  lemma Members(items: seq<Item>, end: Item, k: nat, x: Item)
    requires k <= |items|
    ensures var after := InsertAt(items, k, x); var r := [end] + items + [end]; var s := [end] + after + [end];
            |after| == |items| + 1 && (forall i :: 0 <= i < |after| ==> after[i] == x || after[i] in items) &&
            s == InsertAt(r, k + 1, x) &&
            (forall i :: 0 <= i <= k ==> s[i] == r[i]) && (forall i :: k < i < |r| ==> s[i + 1] == r[i])
  {
  }

  lemma Remaining(items: seq<Item>, end: Item, k: nat)
    requires k < |items| && IsRing([end] + items + [end])
    ensures var after := RemoveAt(items, k); var r := [end] + items + [end]; var s := [end] + after + [end];
            |after| == |items| - 1 && (forall i :: 0 <= i < |after| ==> after[i] != items[k] && after[i] in items) &&
            s == RemoveAt(r, k + 1) &&
            (forall i :: 0 <= i <= k ==> s[i] == r[i]) && (forall i :: k < i < |s| ==> s[i] == r[i + 1])
  {
    var r := [end] + items + [end];
    forall i | 0 <= i < |items| && i != k ensures items[i] != items[k] {
      assert items[i] == r[i + 1] && items[k] == r[k + 1];
    }
  }

  /** The four assignments that link x in between two neighbours, behind position k of the ring. */
  method LinkIn(x: Item, behind: Item, ahead: Item, ghost r: seq<Item>, ghost k: nat)
    requires IsRing(r) && NextLinks(r) && PrevLinks(r) && k < |r| - 1 && r[k] == behind && r[k + 1] == ahead && x !in r
    modifies x`next, x`prev, behind`next, ahead`prev
    ensures var s := InsertAt(r, k + 1, x); IsRing(s) && NextLinks(s) && PrevLinks(s)
  {
    hide NextLinks, PrevLinks, InsertAt, Follows;
    ghost var nexts, prevs := Nexts(r), Prevs(r);
    LinksFollow(r);
    x.next := ahead;
    x.prev := behind;
    ahead.prev := x;
    behind.next := x;
    LinkedIn(r, nexts, prevs, x, k);
  }

  /** The two assignments that link an item out. */
  method LinkOut(x: Item, behind: Item, ahead: Item, ghost r: seq<Item>, ghost k: nat)
    requires IsRing(r) && NextLinks(r) && PrevLinks(r) && 0 < k < |r| - 1
    requires r[k] == x && r[k - 1] == behind && r[k + 1] == ahead
    modifies behind`next, ahead`prev
    ensures var s := RemoveAt(r, k); IsRing(s) && NextLinks(s) && PrevLinks(s)
  {
    hide NextLinks, PrevLinks, RemoveAt, Follows;
    ghost var nexts, prevs := Nexts(r), Prevs(r);
    LinksFollow(r);
    ahead.prev := behind;
    behind.next := ahead;
    LinkedOut(r, nexts, prevs, k);
  }

  class List {
    const end: Item
    var index: Item
    var count: nat
    ghost var items: seq<Item>
    ghost var pos: nat

    ghost function Ring(): seq<Item>
      reads this`items
    {
      [end] + items + [end]
    }

    /** The ring of the marker and the items is linked both ways, the items name this list, and the
        index stands on it. */
    ghost predicate Valid()
      reads this, end, items
    {
      IsRing(Ring()) && NextLinks(Ring()) && PrevLinks(Ring()) &&
      count == |items| && pos <= |items| && index == Ring()[pos] && end.value == MAX_DELAY &&
      (forall i :: 0 <= i < |items| ==> items[i].container == this)
    }

    ghost function Values(): (v: seq<nat>)
      reads this`items, items`value
      ensures |v| == |items|
    {
      ValuesOf(items)
    }

    /** vListInitialise. */
    constructor ()
      ensures Valid() && fresh(end) && items == [] && pos == 0
    {
      end := new Item(0);
      index := end;
      count := 0;
      items, pos := [], 0;
      new;
      end.value, end.next, end.prev := MAX_DELAY, end, end;
    }

    /** vListInsertEnd: the new item goes just before the index. */
    method InsertEnd(x: Item)
      requires Valid() && x != end && x !in items && x.container == null
      modifies this`count, this`items, this`pos, end`next, end`prev, items`next, items`prev, x`next, x`prev, x`container
      ensures Valid() && x.container == this
      ensures items == InsertAt(old(items), EndPlace(|old(items)|, old(pos)), x)
      ensures pos == if old(pos) == 0 then 0 else old(pos) + 1
    {
      hide NextLinks, PrevLinks, IsRing, InsertAt;
      ghost var k := EndPlace(|items|, pos);
      ghost var r := Ring();
      RingLinks(k);
      Members(items, end, k, x);
      LinkIn(x, index.prev, index, r, k);
      x.container := this;
      count := count + 1;
      if pos > 0 { pos := pos + 1; }
      items := InsertAt(items, k, x);
    }

    /** vListInsert: before the first larger value. */
    method Insert(x: Item)
      requires Valid() && x != end && x !in items && x.container == null && x.value <= MAX_DELAY
      requires forall i :: 0 <= i < |items| ==> items[i].value <= MAX_DELAY
      modifies this`count, this`items, this`pos, end`next, end`prev, items`next, items`prev, x`next, x`prev, x`container
      ensures Valid() && x.container == this
      ensures var k := FirstAbove(old(Values()), x.value);
              items == InsertAt(old(items), k, x) && pos == if k < old(pos) then old(pos) + 1 else old(pos)
    {
      hide NextLinks, PrevLinks, IsRing, InsertAt, FirstAbove, ValuesOf, Values;
      ghost var k := FirstAbove(Values(), x.value);
      ghost var r := Ring();
      var behind := FindPlace(x.value);
      RingLinks(k);
      Members(items, end, k, x);
      LinkIn(x, behind, behind.next, r, k);
      x.container := this;
      count := count + 1;
      if k < pos { pos := pos + 1; }
      items := InsertAt(items, k, x);
    }

    /** The links around position k of the ring. */
    lemma RingLinks(k: nat)
      requires Valid() && k <= |items|
      ensures Ring()[k].next == Ring()[k + 1] && Ring()[k + 1].prev == Ring()[k]
      ensures end.prev == Ring()[|items|] && end.next == Ring()[1]
      ensures pos == 0 ==> index.prev == Ring()[|items|]
      ensures pos > 0 ==> index.prev == Ring()[pos - 1]
    {
    }

    /** Where vListInsert puts a value: the loop is stopped by the end marker, whose own value is
        handled separately. */
    method FindPlace(v: nat) returns (place: Item)
      requires Valid() && v <= MAX_DELAY && forall i :: 0 <= i < |items| ==> items[i].value <= MAX_DELAY
      ensures place == Ring()[FirstAbove(Values(), v)]
    {
      ghost var at := 0;
      ghost var r := Ring();
      if v == MAX_DELAY {
        RingLinks(|items|);
        NoneAbove(Values());
        return end.prev;
      }
      place := end;
      while place.next.value <= v
        invariant at <= |items| && place == r[at] && forall i :: 0 <= i < at ==> items[i].value <= v
        decreases |items| - at
      {
        assert place.next == r[at + 1];
        assert at < |items| ==> r[at + 1] == items[at];
        place := place.next;
        at := at + 1;
      }
      assert place.next == r[at + 1];
      FirstAboveIs(Values(), v, at);
    }

    /** The links of item k go, and the index steps back when it stands on it. */
    method Take(x: Item, ghost k: nat)
      requires Valid() && k < |items| && items[k] == x
      modifies this`index, this`count, this`items, this`pos, end`next, end`prev, items`next, items`prev, x`container
      ensures Valid() && x.container == null && items == RemoveAt(old(items), k)
      ensures pos == if k < old(pos) then old(pos) - 1 else old(pos)
    {
      hide NextLinks, PrevLinks, IsRing, RemoveAt;
      ghost var r := Ring();
      RingLinks(k);
      RingLinks(k + 1);
      Remaining(items, end, k);
      RingPosition(k);
      LinkOut(x, x.prev, x.next, r, k + 1);
      if index == x {
        index := x.prev;
      }
      x.container := null;
      count := count - 1;
      if k < pos { pos := pos - 1; }
      items := RemoveAt(items, k);
    }

    lemma RingPosition(k: nat)
      requires Valid() && k < |items|
      ensures index == items[k] <==> pos == k + 1
      ensures end != items[k]
    {
      if index == items[k] && pos != k + 1 { OtherPosition(Ring(), pos, k + 1); }
      OtherPosition(Ring(), 0, k + 1);
    }

    /** uxListRemove. */
    static method Remove(x: Item, ghost k: nat) returns (left: nat)
      requires x.container != null && x.container.Valid() && k < |x.container.items| && x.container.items[k] == x
      modifies x.container`index, x.container`count, x.container`items, x.container`pos
      modifies x.container.end`next, x.container.end`prev, x.container.items`next, x.container.items`prev, x`container
      ensures var list := old(x.container);
              list.Valid() && list.items == RemoveAt(old(list.items), k) && left == |list.items| &&
              list.pos == if k < old(list.pos) then old(list.pos) - 1 else old(list.pos)
      ensures x.container == null
    {
      var list := x.container;
      list.Take(x, k);
      left := list.count;
    }

    /** listGET_OWNER_OF_NEXT_ENTRY, for a list with entries. */
    method NextEntry() returns (entry: Item)
      requires Valid() && items != []
      modifies this`index, this`pos
      ensures Valid() && items == old(items)
      ensures pos == NextPos(|items|, old(pos)) && entry == items[pos - 1]
      ensures entry == WalkOrder(items, old(pos))[0] &&
              WalkOrder(items, pos) == WalkOrder(items, old(pos))[1..] + [entry]
    {
      hide WalkOrder;
      ghost var r := Ring();
      WalkAdvances(items, pos);
      assert index.next == r[pos + 1];
      index := index.next;
      if index == end {
        assert pos == |items|;
        assert index.next == r[1];
        index := index.next;
        pos := 0;
      }
      pos := pos + 1;
      entry := index;
    }
  }

  lemma {:induction false} FirstAboveIs(values: seq<nat>, v: nat, k: nat)
    requires k <= |values| && (forall i :: 0 <= i < k ==> values[i] <= v) && (k < |values| ==> values[k] > v)
    ensures FirstAbove(values, v) == k
  {
    if values != [] && values[0] <= v { FirstAboveIs(values[1..], v, k - 1); }
  }

  lemma NoneAbove(values: seq<nat>)
    requires forall i :: 0 <= i < |values| ==> values[i] <= MAX_DELAY
    ensures FirstAbove(values, MAX_DELAY) == |values|
  {
    FirstAboveIs(values, MAX_DELAY, |values|);
  }

  // ---------- The walk ----------

  /** One call returns the first of the walk order and moves it to the end. */
  lemma WalkAdvances<T>(items: seq<T>, pos: nat)
    requires items != [] && pos <= |items|
    ensures |WalkOrder(items, pos)| == |items|
    ensures var p := NextPos(|items|, pos);
            WalkOrder(items, pos)[0] == items[p - 1] &&
            WalkOrder(items, p) == WalkOrder(items, pos)[1..] + [items[p - 1]]
  {
  }

  /** The entries that `calls` successive calls return. */
  function Visited<T>(items: seq<T>, pos: nat, calls: nat): seq<T>
    requires items != [] && pos <= |items|
    decreases calls
  {
    if calls == 0 then []
    else
      var p := NextPos(|items|, pos);
      [items[p - 1]] + Visited(items, p, calls - 1)
  }

  lemma {:induction false} VisitsInOrder<T>(items: seq<T>, pos: nat, calls: nat)
    requires items != [] && pos <= |items| && calls <= |items|
    ensures Visited(items, pos, calls) == WalkOrder(items, pos)[..calls]
    decreases calls
  {
    if calls > 0 {
      var p := NextPos(|items|, pos);
      WalkAdvances(items, pos);
      VisitsInOrder(items, p, calls - 1);
      assert WalkOrder(items, p)[..calls - 1] == WalkOrder(items, pos)[1..calls];
    }
  }

  /** Round robin: as many calls as there are items return every item once. */
  lemma RoundRobin<T>(items: seq<T>, pos: nat)
    requires items != [] && pos <= |items|
    ensures multiset(Visited(items, pos, |items|)) == multiset(items)
    ensures Visited(items, pos, |items|) == WalkOrder(items, pos)
  {
    VisitsInOrder(items, pos, |items|);
    assert WalkOrder(items, pos)[..|items|] == WalkOrder(items, pos);
    assert items == items[..pos] + items[pos..];
  }

  /** vListInsertEnd places the new item behind all others in the walk, except the current one. */
  lemma InsertEndWalksLast<T>(items: seq<T>, pos: nat, x: T)
    requires pos <= |items|
    ensures var walk := WalkOrder(items, pos);
            var after := WalkOrder(InsertAt(items, EndPlace(|items|, pos), x), if pos == 0 then 0 else pos + 1);
            after == if pos == 0 then walk + [x] else walk[..|items| - 1] + [x] + [walk[|items| - 1]]
  {
    var after := InsertAt(items, EndPlace(|items|, pos), x);
    if pos == 0 {
      assert after == items + [x];
    } else {
      assert after[pos + 1..] == items[pos..];
      assert after[..pos + 1] == items[..pos - 1] + [x] + [items[pos - 1]];
      assert WalkOrder(items, pos)[..|items| - 1] == items[pos..] + items[..pos - 1];
    }
  }

  /** uxListRemove, even of the item the index stands on, keeps the walk order of the others. */
  lemma RemoveKeepsWalk<T>(items: seq<T>, pos: nat, k: nat)
    requires pos <= |items| && k < |items|
    ensures WalkOrder(RemoveAt(items, k), if k < pos then pos - 1 else pos)
         == RemoveAt(WalkOrder(items, pos), if k < pos then |items| - pos + k else k - pos)
  {
    var after := RemoveAt(items, k);
    if k < pos {
      assert after[pos - 1..] == items[pos..];
      assert after[..pos - 1] == items[..k] + items[k + 1..pos];
    } else {
      assert after[pos..] == items[pos..k] + items[k + 1..];
      assert after[..pos] == items[..pos];
    }
  }

  // ---------- The order of values ----------

  predicate Ascending(values: seq<nat>) {
    forall i, j :: 0 <= i < j < |values| ==> values[i] <= values[j]
  }

  lemma InsertCounts<T>(s: seq<T>, k: nat, x: T)
    requires k <= |s|
    ensures multiset(InsertAt(s, k, x)) == multiset(s) + multiset{x}
  {
    assert s == s[..k] + s[k..];
  }

  lemma InsertAscends(values: seq<nat>, k: nat, v: nat)
    requires Ascending(values) && k <= |values|
    requires (forall i :: 0 <= i < k ==> values[i] <= v) && (k < |values| ==> values[k] > v)
    ensures Ascending(InsertAt(values, k, v))
  {
    forall i | k <= i < |values| ensures values[i] > v { assert values[k] <= values[i]; }
  }

  /** vListInsert keeps ascending order, adds the value, and puts it behind all equal ones. */
  lemma InsertKeepsOrder(values: seq<nat>, v: nat)
    requires Ascending(values)
    ensures var k := FirstAbove(values, v); var after := InsertAt(values, k, v);
            Ascending(after) && multiset(after) == multiset(values) + multiset{v} &&
            forall i :: 0 <= i < |values| && values[i] == v ==> i < k
  {
    hide InsertAt;
    var k := FirstAbove(values, v);
    InsertAscends(values, k, v);
    InsertCounts(values, k, v);
    forall i | k <= i < |values| ensures values[i] > v { assert values[k] <= values[i]; }
  }
}
