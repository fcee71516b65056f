/** The lists of the scheduler are sequences with the position of the index.  The linked lists of the
    kernel implement them: each list operation that the scheduler uses does on the linked list what the
    sequence function says. */
module CoroutineLists {
  import opened Common
  import opened RtosList
  import opened Coroutine

  /** The items of the linked list belong to the co-routines of the queue, in order. */
  ghost predicate Implements(l: List, q: Queue)
    reads l, l.end, l.items
  {
    l.Valid() && l.pos == q.pos && Owners(l.items, q.items)
  }

  ghost predicate Owners(items: seq<Item>, ids: seq<nat>) {
    |items| == |ids| && forall i :: 0 <= i < |items| ==> items[i].owner == ids[i]
  }

  /** They also carry the values of those. */
  ghost predicate Carries(l: List, value: seq<nat>)
    reads l, l.items
  {
    forall x :: x in l.items ==> x.owner < |value| && x.value == value[x.owner] <= MAX_DELAY
  }

  lemma OwnersInserted(items: seq<Item>, ids: seq<nat>, k: nat, x: Item)
    requires Owners(items, ids) && k <= |items|
    ensures Owners(InsertAt(items, k, x), InsertAt(ids, k, x.owner))
  {
  }

  lemma OwnersRemoved(items: seq<Item>, ids: seq<nat>, k: nat)
    requires Owners(items, ids) && k < |items|
    ensures Owners(RemoveAt(items, k), RemoveAt(ids, k))
  {
  }

  /** vListInsertEnd, as prvAddCoRoutineToReadyQueue uses it. */
  method AppendToReady(l: List, x: Item, ghost q: Queue)
    requires Implements(l, q) && x != l.end && x !in l.items && x.container == null
    modifies l`count, l`items, l`pos, l.end`next, l.end`prev, l.items`next, l.items`prev, x`next, x`prev, x`container
    ensures Implements(l, Appended(q, x.owner)) && x.container == l
  {
    hide InsertAt, EndPlace;
    OwnersInserted(l.items, q.items, EndPlace(|l.items|, l.pos), x);
    l.InsertEnd(x);
  }

  /** vListInsert of an item with its wake time, as vCoRoutineAddToDelayedList uses it. */
  method InsertByTime(l: List, x: Item, ghost ids: seq<nat>, ghost value: seq<nat>)
    requires Implements(l, Queue(ids, l.pos)) && Carries(l, value)
    requires x.owner < |value| && x.value == value[x.owner] <= MAX_DELAY
    requires x != l.end && x !in l.items && x.container == null
    modifies l`count, l`items, l`pos, l.end`next, l.end`prev, l.items`next, l.items`prev, x`next, x`prev, x`container
    ensures Carries(l, value) && x.container == l
    ensures forall i :: 0 <= i < |ids| ==> ids[i] < |value|
    ensures Implements(l, Queue(InsertAt(ids, InsertPlace(ids, x.owner, value), x.owner), l.pos))
  {
    hide FirstAbove, InsertPlace, InsertAt, ValuesOf, Owners;
    SamePlace(l.items, ids, x, value);
    OwnersInserted(l.items, ids, InsertPlace(ids, x.owner, value), x);
    ghost var before := l.items;
    l.Insert(x);
    Around(before, InsertPlace(ids, x.owner, value), x);
  }

  lemma Around(items: seq<Item>, k: nat, x: Item)
    requires k <= |items|
    ensures forall y :: y in InsertAt(items, k, x) <==> y in items || y == x
  {
  }

  /** The values along the list are those of the co-routines. */
  lemma SamePlace(items: seq<Item>, ids: seq<nat>, x: Item, value: seq<nat>)
    requires Owners(items, ids) && x.owner < |value| && x.value == value[x.owner]
    requires forall y :: y in items ==> y.owner < |value| && y.value == value[y.owner]
    ensures forall i :: 0 <= i < |ids| ==> ids[i] < |value|
    ensures FirstAbove(ValuesOf(items), x.value) == InsertPlace(ids, x.owner, value)
  {
    assert forall i :: 0 <= i < |ids| ==> ids[i] == items[i].owner && items[i] in items;
    assert ValuesOf(items) == ValuesFor(ids, value);
  }

  /** uxListRemove, wherever the co-routine stands in the list. */
  method TakeOut(l: List, x: Item, ghost k: nat, ghost q: Queue) returns (left: nat)
    requires Implements(l, q) && x.container == l && k < |l.items| && l.items[k] == x && NoDuplicates(q.items)
    modifies l`index, l`count, l`items, l`pos, l.end`next, l.end`prev, l.items`next, l.items`prev, x`container
    ensures x.owner in q.items && Implements(l, Removed(q, x.owner)) && left == |l.items| && x.container == null
  {
    hide RemoveAt;
    assert q.items[k] == x.owner;
    OwnersRemoved(l.items, q.items, k);
    left := List.Remove(x, k);
  }

  /** listGET_OWNER_OF_NEXT_ENTRY, as vCoRoutineSchedule uses it. */
  method NextInTurn(l: List, ghost q: Queue) returns (id: nat)
    requires Implements(l, q) && q.items != [] && q.pos <= |q.items|
    modifies l`index, l`pos
    ensures Implements(l, Queue(q.items, NextPos(|q.items|, q.pos))) && id == WalkOrder(q.items, q.pos)[0]
  {
    WalkAdvances(q.items, q.pos);
    var entry := l.NextEntry();
    id := entry.owner;
  }
}
