/** The co-routine scheduler on top of the kernel lists: ready lists by priority, two delay lists that
    are swapped when the 32-bit tick count wraps, event lists and the pending list. */
module Coroutine {
  import opened Common
  import opened RtosList

  const WRAP: nat := 0x1_0000_0000

  /** The 32-bit tick count after so many ticks. */
  function TickOf(n: nat): (t: nat)
    ensures t < WRAP && t <= n
  {
    n % 0x1_0000_0000
  }

  lemma TickAdvances(n: nat)
    ensures TickOf(0) == 0
    ensures TickOf(n + 1) == if TickOf(n) + 1 == WRAP then 0 else TickOf(n) + 1
  {
  }

  /** Where the generic item of a co-routine is; Limbo only between two list operations. */
  datatype Place = Ready(level: nat) | Delayed | Overflow | Limbo

  /** Where its event item is. */
  datatype EventPlace = NoList | OnEvent(list: nat) | Pending

  /** A list by its items and the position of its index. */
  datatype Queue = Queue(items: seq<nat>, pos: nat)

  predicate Blocked(p: Place) { p == Delayed || p == Overflow }

  // ---------- Lists and where items are ----------

  ghost predicate NoDuplicates(s: seq<nat>) { forall i, j :: 0 <= i < j < |s| ==> s[i] != s[j] }

  /** The list holds, once each, exactly the items that are at `what`. */
  ghost predicate Holds<T(!new)>(s: seq<nat>, at: seq<T>, what: T) {
    NoDuplicates(s) && forall id: nat {:trigger id in s} :: id in s <==> id < |at| && at[id] == what
  }

  function IndexOf(s: seq<nat>, x: nat): (k: nat)
    requires x in s
    ensures k < |s| && s[k] == x
  {
    if s[0] == x then 0 else 1 + IndexOf(s[1..], x)
  }

  function Without(s: seq<nat>, x: nat): seq<nat>
    requires x in s
  {
    RemoveAt(s, IndexOf(s, x))
  }

  lemma AddOne(s: seq<nat>, k: nat, x: nat)
    requires NoDuplicates(s) && k <= |s| && x !in s
    ensures NoDuplicates(InsertAt(s, k, x)) && forall y :: y in InsertAt(s, k, x) <==> y in s || y == x
  {
    var t := InsertAt(s, k, x);
    forall y | y in s ensures y in t {
      var i :| 0 <= i < |s| && s[i] == y;
      assert t[if i < k then i else i + 1] == y;
    }
    assert t[k] == x;
  }

  lemma TakeOne(s: seq<nat>, x: nat)
    requires NoDuplicates(s) && x in s
    ensures NoDuplicates(Without(s, x)) && forall y :: y in Without(s, x) <==> y in s && y != x
  {
    var k := IndexOf(s, x);
    var t := Without(s, x);
    forall y | y in s && y != x ensures y in t {
      var i :| 0 <= i < |s| && s[i] == y;
      assert t[if i < k then i else i - 1] == y;
    }
  }

  lemma HoldsGains<T(!new)>(s: seq<nat>, at: seq<T>, what: T, id: nat, k: nat)
    requires Holds(s, at, what) && id < |at| && at[id] != what && k <= |s|
    ensures Holds(InsertAt(s, k, id), at[id := what], what)
  {
    hide InsertAt;
    AddOne(s, k, id);
  }

  lemma HoldsLoses<T(!new)>(s: seq<nat>, at: seq<T>, what: T, id: nat, other: T)
    requires Holds(s, at, what) && id < |at| && at[id] == what && other != what
    ensures id in s && Holds(Without(s, id), at[id := other], what)
  {
    hide Without;
    TakeOne(s, id);
  }

  lemma HoldsKeeps<T(!new)>(s: seq<nat>, at: seq<T>, what: T, id: nat, other: T)
    requires Holds(s, at, what) && id < |at| && at[id] != what && other != what
    ensures Holds(s, at[id := other], what) && id !in s
  {
  }

  lemma HoldsGrows<T(!new)>(s: seq<nat>, at: seq<T>, what: T, other: T)
    requires Holds(s, at, what) && other != what
    ensures Holds(s, at + [other], what)
  {
  }

  lemma HoldsWhich<T(!new)>(s: seq<nat>, at: seq<T>, what: T, id: nat)
    requires Holds(s, at, what)
    ensures id in s <==> id < |at| && at[id] == what
  {
  }

  lemma HoldsAll<T(!new)>(s: seq<nat>, at: seq<T>, what: T)
    requires Holds(s, at, what)
    ensures forall i :: 0 <= i < |s| ==> s[i] < |at| && at[s[i]] == what
    ensures s == [] <==> forall id :: 0 <= id < |at| ==> at[id] != what
  {
    forall i | 0 <= i < |s| ensures s[i] < |at| && at[s[i]] == what { assert s[i] in s; }
    if s == [] {
      forall id | 0 <= id < |at| ensures at[id] != what { assert id !in s; }
    } else {
      assert at[s[0]] == what;
    }
  }

  // ---------- Sorted lists ----------

  /** The list is in ascending order of the values its items carry. */
  ghost predicate Ascends(s: seq<nat>, value: seq<nat>) {
    (forall i :: 0 <= i < |s| ==> s[i] < |value|) && forall i, j :: 0 <= i < j < |s| ==> value[s[i]] <= value[s[j]]
  }

  function ValuesFor(s: seq<nat>, value: seq<nat>): (v: seq<nat>)
    requires forall i :: 0 <= i < |s| ==> s[i] < |value|
    ensures |v| == |s| && forall i :: 0 <= i < |s| ==> v[i] == value[s[i]]
  {
    seq(|s|, i requires 0 <= i < |s| => value[s[i]])
  }

  /** Where vListInsert puts an item. */
  function InsertPlace(s: seq<nat>, id: nat, value: seq<nat>): (k: nat)
    requires id < |value| && forall i :: 0 <= i < |s| ==> s[i] < |value|
    ensures k <= |s|
  {
    FirstAbove(ValuesFor(s, value), value[id])
  }

  lemma AscendsGains(s: seq<nat>, id: nat, value: seq<nat>)
    requires Ascends(s, value) && id < |value|
    ensures Ascends(InsertAt(s, InsertPlace(s, id, value), id), value)
  {
    hide FirstAbove;
    var k := InsertPlace(s, id, value);
    var v := ValuesFor(s, value);
    InsertAscends(v, k, value[id]);
    var t := InsertAt(s, k, id);
    var w := InsertAt(v, k, value[id]);
    forall i | 0 <= i < |t| ensures t[i] < |value| && value[t[i]] == w[i] { }
  }

  lemma AscendsLoses(s: seq<nat>, id: nat, value: seq<nat>)
    requires Ascends(s, value) && id in s
    ensures Ascends(Without(s, id), value)
  {
  }

  lemma AscendsElsewhere(s: seq<nat>, id: nat, value: seq<nat>, v: nat)
    requires Ascends(s, value) && id < |value| && id !in s
    ensures Ascends(s, value[id := v])
  {
    forall i | 0 <= i < |s| ensures s[i] != id { assert s[i] in s; }
  }

  lemma AscendsGrows(s: seq<nat>, value: seq<nat>, v: nat)
    requires Ascends(s, value)
    ensures Ascends(s, value + [v])
  {
  }

  /** Event items carry lower values for higher priorities. */
  function EventValues(prio: seq<nat>, levels: nat): (v: seq<nat>)
    requires forall i :: 0 <= i < |prio| ==> prio[i] < levels
    ensures |v| == |prio| && forall i :: 0 <= i < |prio| ==> v[i] == levels - prio[i]
  {
    seq(|prio|, i requires 0 <= i < |prio| => levels - prio[i])
  }

  lemma EventValuesGrow(prio: seq<nat>, levels: nat, p: nat)
    requires p < levels && forall i :: 0 <= i < |prio| ==> prio[i] < levels
    ensures EventValues(prio + [p], levels) == EventValues(prio, levels) + [levels - p]
  {
  }

  // ---------- Ready queues ----------

  function Appended(q: Queue, x: nat): Queue
    requires q.pos <= |q.items|
  {
    Queue(InsertAt(q.items, EndPlace(|q.items|, q.pos), x), if q.pos == 0 then 0 else q.pos + 1)
  }

  function Removed(q: Queue, x: nat): Queue
    requires x in q.items
  {
    Queue(Without(q.items, x), if IndexOf(q.items, x) < q.pos then q.pos - 1 else q.pos)
  }

  function EmptyQueues(n: nat): (r: seq<Queue>)
    ensures |r| == n && forall p :: 0 <= p < n ==> r[p] == Queue([], 0)
  {
    seq(n, _ => Queue([], 0))
  }

  function EmptyLists(n: nat): (r: seq<seq<nat>>)
    ensures |r| == n && forall e :: 0 <= e < n ==> r[e] == []
  {
    seq(n, _ => [])
  }

  class Scheduler {
    const levels: nat
    var prio: seq<nat>
    var wake: seq<nat>
    var ready: seq<Queue>
    var delayed: seq<nat>
    var overflow: seq<nat>
    var pending: seq<nat>
    var events: seq<seq<nat>>
    var top: nat
    var tick: nat
    var lastTick: nat
    var current: Option<nat>
    /** The containers of each co-routine's generic and event item. */
    var place: seq<Place>
    var eventAt: seq<EventPlace>
    /** The ticks that passed in all, and the tick each blocked co-routine waits for. */
    ghost var now: nat
    ghost var due: seq<nat>

    ghost predicate Priorities()
      reads this`prio, this`place
    {
      levels > 0 && |prio| == |place| && (forall id :: 0 <= id < |prio| ==> prio[id] < levels) &&
      forall id :: 0 <= id < |place| && place[id].Ready? ==> place[id].level == prio[id]
    }

    ghost predicate ReadyLists()
      reads this`ready, this`place
    {
      |ready| == levels &&
      forall p: nat :: p < levels ==> ready[p].pos <= |ready[p].items| && Holds(ready[p].items, place, Ready(p))
    }

    ghost predicate DelayLists()
      reads this`delayed, this`overflow, this`wake, this`place
    {
      |wake| == |place| && Holds(delayed, place, Delayed) && Holds(overflow, place, Overflow) &&
      Ascends(delayed, wake) && Ascends(overflow, wake) && forall id :: 0 <= id < |wake| ==> wake[id] < WRAP
    }

    ghost predicate EventLists()
      requires Priorities()
      reads this`events, this`pending, this`eventAt, this`place, this`prio
    {
      |eventAt| == |place| && Holds(pending, eventAt, Pending) &&
      (forall e: nat :: e < |events| ==>
         Holds(events[e], eventAt, OnEvent(e)) && Ascends(events[e], EventValues(prio, levels))) &&
      forall id :: 0 <= id < |eventAt| ==> eventAt[id].OnEvent? ==> eventAt[id].list < |events|
    }

    /** Only blocked co-routines wait for events. */
    ghost predicate WaitersBlocked()
      reads this`eventAt, this`place
    {
      |eventAt| == |place| && forall id :: 0 <= id < |place| && eventAt[id] != NoList ==> Blocked(place[id])
    }

    /** Every blocked co-routine's wake time stands for the tick it waits for, at least `slack` ahead. */
    ghost predicate Deadlines(slack: nat)
      reads this`place, this`wake, this`due, this`now, this`tick
    {
      |due| == |wake| == |place| && tick == TickOf(now) &&
      (forall id :: 0 <= id < |place| && place[id] == Delayed ==>
         due[id] == now - tick + wake[id] && due[id] >= now + slack) &&
      (forall id :: 0 <= id < |place| && place[id] == Overflow ==> due[id] == now - tick + WRAP + wake[id])
    }

    ghost predicate TopIsHighest()
      reads this`ready, this`top
    {
      top < |ready| && forall p :: top < p < |ready| ==> ready[p].items == []
    }

    /** What holds between any two list operations. */
    ghost predicate Linked(slack: nat)
      reads this
    {
      Priorities() && ReadyLists() && DelayLists() && EventLists() && WaitersBlocked() && Deadlines(slack) &&
      TopIsHighest()
    }

    /** The invariant between two calls. */
    ghost predicate Valid()
      reads this
    {
      Linked(1) && lastTick == tick && Settled() && (current.Some? ==> current.value < |place|)
    }

    ghost predicate Settled()
      reads this`place
    {
      forall id :: 0 <= id < |place| ==> place[id] != Limbo
    }

    /** prvInitialiseCoRoutineLists. */
    constructor (levels: nat, eventLists: nat)
      requires levels > 0
      ensures Valid() && this.levels == levels && place == [] && |events| == eventLists && now == 0
    {
      this.levels := levels;
      prio, wake, ready := [], [], EmptyQueues(levels);
      delayed, overflow, pending, events := [], [], [], EmptyLists(eventLists);
      top, tick, lastTick, current := 0, 0, 0, None;
      place, eventAt, now, due := [], [], 0, [];
      new;
      hide Valid;
      StartsValid();
    }

    lemma StartsValid()
      requires place == [] && prio == [] && wake == due == delayed == overflow == pending == [] && eventAt == []
      requires ready == EmptyQueues(levels) && events == EmptyLists(|events|) && levels > 0
      requires lastTick == tick == now == top == 0 && current.None?
      ensures Valid()
    {
      hide Priorities, ReadyLists, DelayLists, EventLists, WaitersBlocked, Deadlines, TopIsHighest, Settled;
      StartReady();
      StartDelay();
      StartEvents();
      StartDeadlines();
    }

    lemma StartReady()
      requires prio == [] && place == [] && levels > 0 && ready == EmptyQueues(levels) && top == 0
      ensures Priorities() && ReadyLists() && TopIsHighest() && Settled()
    {
    }

    lemma StartDelay()
      requires place == [] && delayed == overflow == wake == []
      ensures DelayLists()
    {
    }

    lemma StartEvents()
      requires levels > 0 && place == [] && prio == [] && eventAt == [] && pending == [] &&
               events == EmptyLists(|events|)
      ensures Priorities() && EventLists() && WaitersBlocked()
    {
    }

    lemma StartDeadlines()
      requires place == [] && wake == due == [] && now == tick == 0
      ensures Deadlines(1)
    {
      TickAdvances(0);
    }

    /** Moving an item between Limbo and a ready list leaves the other lists as they are. */
    lemma OthersKeep(id: nat, other: Place)
      requires DelayLists() && id < |place| && !Blocked(place[id]) && !Blocked(other)
      ensures Holds(delayed, place[id := other], Delayed) && Holds(overflow, place[id := other], Overflow)
    {
      hide Holds;
      HoldsKeeps(delayed, place, Delayed, id, other);
      HoldsKeeps(overflow, place, Overflow, id, other);
    }

    /** prvAddCoRoutineToReadyQueue. */
    method AddToReadyQueue(id: nat, ghost slack: nat)
      requires Linked(slack) && id < |place| && place[id] == Limbo && eventAt[id] == NoList
      modifies this`ready, this`top, this`place
      ensures Linked(slack) && place == old(place)[id := Ready(prio[id])]
      ensures ready == old(ready)[prio[id] := Appended(old(ready)[prio[id]], id)]
    {
      hide Holds, Ascends, InsertAt, EndPlace, TickOf, EventValues;
      var p := prio[id];
      OthersKeep(id, Ready(p));
      if p > top { top := p; }
      var q := ready[p];
      HoldsGains(q.items, place, Ready(p), id, EndPlace(|q.items|, q.pos));
      forall r: nat | r < levels && r != p ensures Holds(ready[r].items, place[id := Ready(p)], Ready(r)) {
        HoldsKeeps(ready[r].items, place, Ready(r), id, Ready(p));
      }
      AppendedLength(q, id);
      ready := ready[p := Appended(q, id)];
      place := place[id := Ready(p)];
    }

    /** uxListRemove of a generic item in a ready list. */
    method TakeFromReady(id: nat, ghost slack: nat)
      requires Linked(slack) && id < |place| && place[id].Ready?
      modifies this`ready, this`place
      ensures Linked(slack) && place == old(place)[id := Limbo]
    {
      hide Holds, Ascends, Without, IndexOf, TickOf, EventValues;
      var p := prio[id];
      OthersKeep(id, Limbo);
      var q := ready[p];
      HoldsLoses(q.items, place, Ready(p), id, Limbo);
      forall r: nat | r < levels && r != p ensures Holds(ready[r].items, place[id := Limbo], Ready(r)) {
        HoldsKeeps(ready[r].items, place, Ready(r), id, Limbo);
      }
      RemovedLength(q, id);
      ready := ready[p := Removed(q, id)];
      place := place[id := Limbo];
    }

    /** The control block of a new co-routine, on no list. */
    method NewRoutine(p: nat)
      requires Linked(1) && p < levels
      modifies this`prio, this`wake, this`place, this`eventAt, this`due
      ensures Linked(1)
      ensures prio == old(prio) + [p] && place == old(place) + [Limbo] && eventAt == old(eventAt) + [NoList]
      ensures wake == old(wake) + [0] && due == old(due) + [0]
    {
      hide Holds, Ascends, EventValues, TickOf;
      ListsGrow(p);
      prio, wake, place, eventAt, due := prio + [p], wake + [0], place + [Limbo], eventAt + [NoList], due + [0];
    }

    /** A co-routine on no list leaves every list as it is. */
    lemma ListsGrow(p: nat)
      requires Priorities() && ReadyLists() && DelayLists() && EventLists() && p < levels
      ensures forall q: nat :: q < levels ==> Holds(ready[q].items, place + [Limbo], Ready(q))
      ensures Holds(delayed, place + [Limbo], Delayed) && Holds(overflow, place + [Limbo], Overflow)
      ensures Ascends(delayed, wake + [0]) && Ascends(overflow, wake + [0]) &&
              Holds(pending, eventAt + [NoList], Pending)
      ensures forall i :: 0 <= i < |prio + [p]| ==> (prio + [p])[i] < levels
      ensures forall e: nat :: e < |events| ==>
                Holds(events[e], eventAt + [NoList], OnEvent(e)) && Ascends(events[e], EventValues(prio + [p], levels))
    {
      hide Holds, Ascends, EventValues, TickOf;
      forall q: nat | q < levels ensures Holds(ready[q].items, place + [Limbo], Ready(q)) {
        HoldsGrows(ready[q].items, place, Ready(q), Limbo);
      }
      HoldsGrows(delayed, place, Delayed, Limbo);
      HoldsGrows(overflow, place, Overflow, Limbo);
      AscendsGrows(delayed, wake, 0);
      AscendsGrows(overflow, wake, 0);
      HoldsGrows(pending, eventAt, Pending, NoList);
      EventValuesGrow(prio, levels, p);
      forall e: nat | e < |events|
        ensures Holds(events[e], eventAt + [NoList], OnEvent(e)) && Ascends(events[e], EventValues(prio + [p], levels))
      {
        HoldsGrows(events[e], eventAt, OnEvent(e), NoList);
        AscendsGrows(events[e], EventValues(prio, levels), levels - p);
      }
    }

    /** xCoRoutineCreate.  The first co-routine becomes the current one. */
    method Create(priority: nat) returns (id: nat)
      requires Valid()
      modifies this
      ensures Valid() && id == |old(place)| && prio == old(prio) + [if priority >= levels then levels - 1 else priority]
      ensures place == old(place) + [Ready(prio[id])] && eventAt == old(eventAt) + [NoList]
      ensures ready == old(ready)[prio[id] := Appended(old(ready)[prio[id]], id)]
      ensures current == if old(current).None? then Some(id) else old(current)
      ensures now == old(now) && due == old(due) + [0]
    {
      hide ReadyLists, DelayLists, EventLists, Deadlines, TopIsHighest;
      id := |prio|;
      if current.None? { current := Some(id); }
      NewRoutine(if priority >= levels then levels - 1 else priority);
      AddToReadyQueue(id, 1);
    }

    /** The wake time, and the delay list it belongs to. */
    method InsertDelayed(id: nat, ticks: nat)
      requires Linked(1) && id < |place| && place[id] == Limbo && eventAt[id] == NoList && 0 < ticks < WRAP
      modifies this`wake, this`delayed, this`overflow, this`place, this`due
      ensures Linked(1) && |place| == |old(place)| && Blocked(place[id]) && place == old(place)[id := place[id]]
      ensures due == old(due)[id := now + ticks]
    {
      hide Linked, WakeTime;
      var timeToWake := WakeTime(tick, ticks);
      assert tick < WRAP by { TickInRange(1); }
      WakeTimeIs(tick, ticks);
      if timeToWake < tick {
        InsertOverflow(id, timeToWake, ticks);
      } else {
        InsertInUse(id, timeToWake, ticks);
      }
    }

    lemma TickInRange(slack: nat)
      requires Linked(slack)
      ensures tick < WRAP
    {
      hide Priorities, ReadyLists, DelayLists, EventLists, TopIsHighest;
    }

    /** A wake time behind the wrap. */
    method InsertOverflow(id: nat, w: nat, ticks: nat)
      requires Linked(1) && id < |place| && place[id] == Limbo && eventAt[id] == NoList && 0 < ticks < WRAP
      requires w == tick + ticks - WRAP < tick
      modifies this`wake, this`overflow, this`place, this`due
      ensures Linked(1) && place == old(place)[id := Overflow] && due == old(due)[id := now + ticks]
    {
      hide Holds, Ascends, TickOf, EventValues, InsertAt, InsertPlace;
      LimboInserts(id, w);
      wake := wake[id := w];
      due := due[id := now + ticks];
      overflow := InsertAt(overflow, InsertPlace(overflow, id, wake), id);
      place := place[id := Overflow];
    }

    /** A wake time in the current round of the tick count. */
    method InsertInUse(id: nat, w: nat, ticks: nat)
      requires Linked(1) && id < |place| && place[id] == Limbo && eventAt[id] == NoList && 0 < ticks < WRAP
      requires tick <= w == tick + ticks < WRAP
      modifies this`wake, this`delayed, this`place, this`due
      ensures Linked(1) && place == old(place)[id := Delayed] && due == old(due)[id := now + ticks]
    {
      hide Holds, Ascends, TickOf, EventValues, InsertAt, InsertPlace;
      LimboInserts(id, w);
      wake := wake[id := w];
      due := due[id := now + ticks];
      delayed := InsertAt(delayed, InsertPlace(delayed, id, wake), id);
      place := place[id := Delayed];
    }

    /** Both ways an item in Limbo can be put on a delay list. */
    lemma LimboInserts(id: nat, w: nat)
      requires DelayLists() && ReadyLists() && id < |place| && place[id] == Limbo
      ensures forall i :: 0 <= i < |delayed| ==> delayed[i] < |wake|
      ensures forall i :: 0 <= i < |overflow| ==> overflow[i] < |wake|
      ensures var value := wake[id := w];
              (var s := InsertAt(delayed, InsertPlace(delayed, id, value), id);
               Holds(s, place[id := Delayed], Delayed) && Ascends(s, value) &&
               Holds(overflow, place[id := Delayed], Overflow)) &&
              (var s := InsertAt(overflow, InsertPlace(overflow, id, value), id);
               Holds(s, place[id := Overflow], Overflow) && Ascends(s, value) &&
               Holds(delayed, place[id := Overflow], Delayed)) &&
              Ascends(delayed, value) && Ascends(overflow, value)
      ensures forall p: nat :: p < levels ==>
                Holds(ready[p].items, place[id := Delayed], Ready(p)) &&
                Holds(ready[p].items, place[id := Overflow], Ready(p))
    {
      hide Holds, Ascends, InsertAt, InsertPlace;
      var value := wake[id := w];
      AscendsRange(delayed, wake);
      AscendsRange(overflow, wake);
      HoldsKeeps(delayed, place, Delayed, id, Overflow);
      HoldsKeeps(overflow, place, Overflow, id, Delayed);
      AscendsElsewhere(delayed, id, wake, w);
      AscendsElsewhere(overflow, id, wake, w);
      HoldsGains(delayed, place, Delayed, id, InsertPlace(delayed, id, value));
      HoldsGains(overflow, place, Overflow, id, InsertPlace(overflow, id, value));
      AscendsGains(delayed, id, value);
      AscendsGains(overflow, id, value);
      forall p: nat | p < levels
        ensures Holds(ready[p].items, place[id := Delayed], Ready(p)) &&
                Holds(ready[p].items, place[id := Overflow], Ready(p))
      {
        HoldsKeeps(ready[p].items, place, Ready(p), id, Delayed);
        HoldsKeeps(ready[p].items, place, Ready(p), id, Overflow);
      }
    }

    /** vListInsert of an event item. */
    method InsertEvent(id: nat, e: nat)
      requires Linked(1) && id < |place| && Blocked(place[id]) && eventAt[id] == NoList && e < |events|
      modifies this`events, this`eventAt
      ensures Linked(1) && eventAt == old(eventAt)[id := OnEvent(e)] && |events| == |old(events)|
    {
      hide Holds, Ascends, TickOf, EventValues, InsertAt, InsertPlace, ReadyLists, DelayLists, Deadlines, TopIsHighest;
      var value := EventValues(prio, levels);
      AscendsRange(events[e], value);
      var k := InsertPlace(events[e], id, value);
      HoldsGains(events[e], eventAt, OnEvent(e), id, k);
      AscendsGains(events[e], id, value);
      HoldsKeeps(pending, eventAt, Pending, id, OnEvent(e));
      forall f: nat | f < |events| && f != e ensures Holds(events[f], eventAt[id := OnEvent(e)], OnEvent(f)) {
        HoldsKeeps(events[f], eventAt, OnEvent(f), id, OnEvent(e));
      }
      events := events[e := InsertAt(events[e], k, id)];
      eventAt := eventAt[id := OnEvent(e)];
    }

    /** vCoRoutineAddToDelayedList, called by the running co-routine.  Its two callers ask for at least
        one tick. */
    method AddToDelayedList(ticks: nat, event: Option<nat>)
      requires Valid() && 0 < ticks < WRAP && current.Some? && place[current.value].Ready?
      requires event.Some? ==> event.value < |events|
      modifies this`ready, this`place, this`wake, this`delayed, this`overflow, this`due, this`events, this`eventAt
      ensures Valid() && |place| == |old(place)| && |events| == |old(events)|
      ensures due == old(due)[current.value := now + ticks] && Blocked(place[current.value])
      ensures place == old(place)[current.value := place[current.value]]
      ensures eventAt == old(eventAt)[current.value := if event.Some? then OnEvent(event.value) else NoList]
    {
      hide Priorities, ReadyLists, DelayLists, EventLists, Deadlines, TopIsHighest;
      var c := current.value;
      TakeFromReady(c, 1);
      InsertDelayed(c, ticks);
      if event.Some? { InsertEvent(c, event.value); }
    }

    /** uxListRemove of an event item, if it is on a list. */
    method TakeEvent(id: nat, ghost slack: nat)
      requires Linked(slack) && id < |place|
      modifies this`pending, this`events, this`eventAt
      ensures Linked(slack) && eventAt == old(eventAt)[id := NoList] && |events| == |old(events)|
      ensures |pending| == if old(eventAt[id]) == Pending then |old(pending)| - 1 else |old(pending)|
    {
      hide Holds, Ascends, TickOf, EventValues, Without, ReadyLists, DelayLists, Deadlines, TopIsHighest;
      var value := EventValues(prio, levels);
      EventTaken(id);
      match eventAt[id]
      case NoList =>
        assert eventAt[id := NoList] == eventAt;
      case Pending =>
        pending := Without(pending, id);
        eventAt := eventAt[id := NoList];
      case OnEvent(e) =>
        AscendsLoses(events[e], id, value);
        events := events[e := Without(events[e], id)];
        eventAt := eventAt[id := NoList];
    }

    /** The event lists once an event item is taken. */
    lemma EventTaken(id: nat)
      requires Priorities() && EventLists() && id < |place|
      ensures eventAt[id] == Pending ==>
                id in pending && Holds(Without(pending, id), eventAt[id := NoList], Pending) &&
                |Without(pending, id)| == |pending| - 1
      ensures eventAt[id] != Pending ==> Holds(pending, eventAt[id := NoList], Pending)
      ensures forall e: nat :: e < |events| ==>
                (if eventAt[id] == OnEvent(e) then
                   id in events[e] && Holds(Without(events[e], id), eventAt[id := NoList], OnEvent(e))
                 else Holds(events[e], eventAt[id := NoList], OnEvent(e)))
    {
      hide Holds, Ascends, Without;
      if eventAt[id] == Pending {
        HoldsLoses(pending, eventAt, Pending, id, NoList);
        WithoutLength(pending, id);
      } else {
        HoldsKeeps(pending, eventAt, Pending, id, NoList);
      }
      forall e: nat | e < |events|
        ensures if eventAt[id] == OnEvent(e) then
                  id in events[e] && Holds(Without(events[e], id), eventAt[id := NoList], OnEvent(e))
                else Holds(events[e], eventAt[id := NoList], OnEvent(e))
      {
        if eventAt[id] == OnEvent(e) {
          HoldsLoses(events[e], eventAt, OnEvent(e), id, NoList);
        } else {
          HoldsKeeps(events[e], eventAt, OnEvent(e), id, NoList);
        }
      }
    }

    /** uxListRemove of a generic item in a delay list. */
    method TakeFromDelay(id: nat, ghost slack: nat)
      requires Linked(slack) && id < |place| && Blocked(place[id]) && eventAt[id] == NoList
      modifies this`delayed, this`overflow, this`place
      ensures Linked(slack) && place == old(place)[id := Limbo]
      ensures |delayed| == if old(place[id]) == Delayed then |old(delayed)| - 1 else |old(delayed)|
    {
      hide Holds, Ascends, TickOf, EventValues, Without, TopIsHighest;
      forall p: nat | p < levels ensures Holds(ready[p].items, place[id := Limbo], Ready(p)) {
        HoldsKeeps(ready[p].items, place, Ready(p), id, Limbo);
      }
      if place[id] == Delayed {
        HoldsLoses(delayed, place, Delayed, id, Limbo);
        HoldsKeeps(overflow, place, Overflow, id, Limbo);
        AscendsLoses(delayed, id, wake);
        WithoutLength(delayed, id);
        delayed := Without(delayed, id);
      } else {
        HoldsLoses(overflow, place, Overflow, id, Limbo);
        HoldsKeeps(delayed, place, Delayed, id, Limbo);
        AscendsLoses(overflow, id, wake);
        overflow := Without(overflow, id);
      }
      place := place[id := Limbo];
    }

    /** A blocked co-routine becomes ready: its items leave the event and the delay list, in one
        critical section, and the generic item goes to the ready list. */
    method Unblock(id: nat, ghost slack: nat)
      requires Linked(slack) && id < |place| && Blocked(place[id])
      modifies this`ready, this`top, this`place, this`eventAt, this`pending, this`events, this`delayed, this`overflow
      ensures Linked(slack) && place == old(place)[id := Ready(prio[id])] && eventAt == old(eventAt)[id := NoList]
      ensures |pending| == if old(eventAt[id]) == Pending then |old(pending)| - 1 else |old(pending)|
      ensures |delayed| == if old(place[id]) == Delayed then |old(delayed)| - 1 else |old(delayed)|
      ensures |events| == |old(events)|
    {
      hide ReadyLists, DelayLists, Deadlines, TopIsHighest;
      TakeEvent(id, slack);
      TakeFromDelay(id, slack);
      AddToReadyQueue(id, slack);
    }

    /** prvCheckPendingReadyList: exactly the co-routines readied by events become ready. */
    method CheckPendingReadyList()
      requires Valid()
      modifies this`ready, this`top, this`place, this`eventAt, this`pending, this`events, this`delayed, this`overflow
      ensures Valid() && pending == [] && |place| == |old(place)| && |events| == |old(events)|
      ensures forall id :: 0 <= id < |place| ==>
                if old(eventAt[id]) == Pending then place[id] == Ready(prio[id]) && eventAt[id] == NoList
                else place[id] == old(place[id]) && eventAt[id] == old(eventAt[id])
    {
      hide Holds, Ascends, EventValues, ReadyLists, DelayLists, Deadlines, TopIsHighest;
      while pending != []
        invariant Linked(1) && Settled() && |place| == |old(place)| == |eventAt| && |events| == |old(events)|
        invariant forall id :: 0 <= id < |place| ==>
                    (place[id] == old(place[id]) && eventAt[id] == old(eventAt[id])) ||
                    (old(eventAt[id]) == Pending && place[id] == Ready(prio[id]) && eventAt[id] == NoList)
        decreases |pending|
      {
        HoldsAll(pending, eventAt, Pending);
        Unblock(pending[0], 1);
      }
      HoldsAll(pending, eventAt, Pending);
    }

    /** One tick: the count advances, and when it wraps the two delay lists change their roles.  The
        list in use is then empty. */
    method AdvanceTick()
      requires Linked(1) && Settled()
      modifies this`tick, this`now, this`delayed, this`overflow, this`place
      ensures Linked(0) && Settled() && now == old(now) + 1
      ensures old(tick) == WRAP - 1 ==> old(delayed) == [] && delayed == old(overflow)
      ensures |place| == |old(place)| && forall id :: 0 <= id < |place| ==>
                if Blocked(old(place[id])) then Blocked(place[id]) else place[id] == old(place[id])
    {
      hide Holds, Ascends, TickOf, EventValues, TopIsHighest;
      TickAdvances(now);
      tick := (tick + 1) % 0x1_0000_0000;
      now := now + 1;
      if tick == 0 { SwapDelayLists(); }
    }

    /** Just after the wrap: every deadline is as far ahead as before, the wake times of the list in use
        belong to the last round, and those of the other list to the one that begins. */
    ghost predicate Wrapped()
      reads this`place, this`wake, this`due, this`now, this`tick
    {
      |due| == |wake| == |place| && tick == 0 < now && TickOf(now) == 0 &&
      (forall id :: 0 <= id < |place| && place[id] == Delayed ==>
         due[id] == now - 1 - (WRAP - 1) + wake[id] && due[id] >= now) &&
      (forall id :: 0 <= id < |place| && place[id] == Overflow ==> due[id] == now + wake[id])
    }

    /** The delay lists change their roles. */
    method SwapDelayLists()
      requires Priorities() && ReadyLists() && DelayLists() && EventLists() && WaitersBlocked() && TopIsHighest()
      requires Wrapped() && Settled()
      modifies this`delayed, this`overflow, this`place
      ensures Linked(0) && Settled() && old(delayed) == [] && delayed == old(overflow) && overflow == []
      ensures place == Turned(old(place))
    {
      hide Holds, Ascends, TickOf, EventValues, TopIsHighest;
      NothingLeft();
      Swapped();
      delayed, overflow := overflow, delayed;
      place := Turned(place);
    }

    /** No co-routine in the list in use waits beyond the last tick before the wrap. */
    lemma NothingLeft()
      requires DelayLists() && |due| == |place| && now > 0 && tick == 0
      requires forall id :: 0 <= id < |place| && place[id] == Delayed ==>
                 due[id] == now - 1 - (WRAP - 1) + wake[id] && due[id] >= now
      ensures delayed == [] && forall id :: 0 <= id < |place| ==> place[id] != Delayed
    {
      HoldsAll(delayed, place, Delayed);
    }

    lemma Swapped()
      requires DelayLists() && ReadyLists() && delayed == []
      ensures Holds(overflow, Turned(place), Delayed) && Holds([], Turned(place), Overflow)
      ensures forall p: nat :: p < levels ==> Holds(ready[p].items, Turned(place), Ready(p))
    {
      HoldsAll(delayed, place, Delayed);
    }

    /** The inner loop of prvCheckDelayedList: exactly the co-routines whose time is this tick are
        readied, and they stop waiting for their event. */
    method WakeExpired()
      requires Linked(0) && Settled()
      modifies this`ready, this`top, this`place, this`eventAt, this`pending, this`events, this`delayed, this`overflow
      ensures Linked(1) && Settled() && |place| == |old(place)| && |events| == |old(events)|
      ensures forall id :: 0 <= id < |place| ==>
                if Blocked(old(place[id])) && due[id] == now then place[id] == Ready(prio[id]) && eventAt[id] == NoList
                else place[id] == old(place[id]) && eventAt[id] == old(eventAt[id])
    {
      hide Holds, Ascends, EventValues, ReadyLists, TopIsHighest;
      while delayed != []
        invariant Linked(0) && Settled() && |place| == |old(place)| == |eventAt| && |events| == |old(events)|
        invariant forall id :: 0 <= id < |place| ==>
                    (place[id] == old(place[id]) && eventAt[id] == old(eventAt[id])) ||
                    (Blocked(old(place[id])) && due[id] == now && place[id] == Ready(prio[id]) && eventAt[id] == NoList)
        decreases |delayed|
      {
        HoldsAll(delayed, place, Delayed);
        if tick < wake[delayed[0]] { break; }
        Unblock(delayed[0], 0);
      }
      NoneExpired();
    }

    /** When the head of the list in use is not due, nothing is. */
    lemma NoneExpired()
      requires Linked(0) && (delayed == [] || (delayed[0] < |wake| && tick < wake[delayed[0]]))
      ensures Linked(1) && forall id :: 0 <= id < |place| && Blocked(place[id]) ==> due[id] > now
    {
      hide Holds, Ascends, EventValues, ReadyLists, TopIsHighest;
      HoldsAll(delayed, place, Delayed);
      AscendsRange(delayed, wake);
      forall id: nat | id < |place| && place[id] == Delayed ensures wake[id] > tick {
        HoldsWhich(delayed, place, Delayed, id);
        var i :| 0 <= i < |delayed| && delayed[i] == id;
      }
    }

    /** prvCheckDelayedList, for the kernel's tick count: a blocked co-routine is readied if and only if
        the tick it waits for is among those that passed. */
    method CheckDelayedList(kernelTick: nat)
      requires Valid() && kernelTick < WRAP
      modifies this`ready, this`top, this`place, this`eventAt, this`pending, this`events, this`delayed, this`overflow
      modifies this`tick, this`now, this`lastTick
      ensures Valid() && |place| == |old(place)| && |events| == |old(events)|
      ensures now == old(now) + Passed(kernelTick, old(tick)) && tick == kernelTick
      ensures forall id :: 0 <= id < |place| ==>
                if !Blocked(old(place[id])) then place[id] == old(place[id]) && eventAt[id] == old(eventAt[id])
                else if due[id] <= now then place[id] == Ready(prio[id]) && eventAt[id] == NoList
                else Blocked(place[id]) && eventAt[id] == old(eventAt[id])
    {
      hide Holds, Ascends, EventValues, ReadyLists, DelayLists, EventLists, TopIsHighest, TickOf, Deadlines;
      var passed := Passed(kernelTick, lastTick);
      ghost var end := now + passed;
      PassedReaches(kernelTick, now);
      DueLater();
      while passed > 0
        invariant Linked(1) && Settled() && now + passed == end && |place| == |old(place)| == |eventAt| == |due|
        invariant |events| == |old(events)| && tick == TickOf(now)
        invariant forall id :: 0 <= id < |place| ==>
                    if !Blocked(old(place[id])) then place[id] == old(place[id]) && eventAt[id] == old(eventAt[id])
                    else if due[id] <= now then place[id] == Ready(prio[id]) && eventAt[id] == NoList
                    else Blocked(place[id]) && eventAt[id] == old(eventAt[id])
      {
        AdvanceTick();
        passed := passed - 1;
        WakeExpired();
        TickIs();
      }
      lastTick := tick;
    }

    lemma TickIs()
      requires Deadlines(1) && WaitersBlocked()
      ensures tick == TickOf(now) && |due| == |place| == |eventAt|
    {
    }

    lemma DueLater()
      requires Deadlines(1) && WaitersBlocked() && DelayLists()
      ensures tick == TickOf(now) && |due| == |place| == |eventAt|
      ensures forall id :: 0 <= id < |place| && Blocked(place[id]) ==> due[id] > now
    {
    }

    /** vCoRoutineSchedule up to the call of the chosen co-routine: it is a ready one of the highest
        priority that is ready, and the first of the walk order of its list, which it then ends. */
    method Schedule(kernelTick: nat) returns (chosen: Option<nat>)
      requires Valid() && kernelTick < WRAP
      modifies this
      ensures Valid() && |place| == |old(place)| && tick == kernelTick
      ensures chosen == None ==> current == old(current) && forall id :: 0 <= id < |place| ==> !place[id].Ready?
      ensures chosen.Some? ==>
                current == chosen && chosen.value < |place| && place[chosen.value] == Ready(prio[chosen.value]) &&
                forall id :: 0 <= id < |place| && place[id].Ready? ==> prio[id] <= prio[chosen.value]
      ensures chosen.Some? ==> EndsWalk(ready[prio[chosen.value]], chosen.value)
    {
      hide Holds, Ascends, EventValues, DelayLists, EventLists, Deadlines;
      CheckPendingReadyList();
      CheckDelayedList(kernelTick);
      while ready[top].items == []
        invariant Valid() && tick == kernelTick && |place| == |old(place)| && current == old(current)
        decreases top
      {
        if top == 0 {
          NoneReadyAbove(0);
          return None;
        }
        top := top - 1;
      }
      chosen := ChooseNext();
    }

    /** listGET_OWNER_OF_NEXT_ENTRY on the highest ready list. */
    method ChooseNext() returns (chosen: Option<nat>)
      requires Valid() && ready[top].items != []
      modifies this`ready, this`current
      ensures Valid() && chosen.Some? && current == chosen && chosen.value < |place|
      ensures place[chosen.value] == Ready(prio[chosen.value])
      ensures forall id :: 0 <= id < |place| && place[id].Ready? ==> prio[id] <= prio[chosen.value]
      ensures EndsWalk(ready[prio[chosen.value]], chosen.value)
      ensures old(ready)[top].items == ready[top].items && old(ready)[top].pos <= |ready[top].items| &&
              chosen.value == WalkOrder(ready[top].items, old(ready)[top].pos)[0]
    {
      hide Holds, Ascends, EventValues, DelayLists, EventLists, Deadlines;
      var q := ready[top];
      var pos := NextPos(|q.items|, q.pos);
      WalkAdvances(q.items, q.pos);
      HoldsAll(q.items, place, Ready(top));
      NoneReadyAbove(top);
      chosen := Some(q.items[pos - 1]);
      ready := ready[top := Queue(q.items, pos)];
      current := chosen;
    }

    lemma NoneReadyAbove(p: nat)
      requires Priorities() && ReadyLists() && TopIsHighest() && p <= top && (p < top ==> ready[top].items == [])
      ensures forall id :: 0 <= id < |place| && place[id].Ready? ==>
                prio[id] <= top && (ready[top].items == [] ==> prio[id] < top)
    {
      hide Holds;
      forall id | 0 <= id < |place| && place[id].Ready?
        ensures prio[id] <= top && (ready[top].items == [] ==> prio[id] < top)
      {
        HoldsWhich(ready[prio[id]].items, place, Ready(prio[id]), id);
      }
    }

    /** xCoRoutineRemoveFromEventList, for a list that is not empty: the waiter of the highest priority
        moves to the pending list.  An interrupt may call it between any two list operations of the
        others: it needs and keeps no more than what holds then. */
    method RemoveFromEventList(e: nat, ghost slack: nat) returns (higher: bool)
      requires Linked(slack) && e < |events| && events[e] != [] && current.Some? && current.value < |place|
      modifies this`events, this`pending, this`eventAt
      ensures Linked(slack) && (old(Valid()) ==> Valid()) && |events| == |old(events)|
      ensures var id := old(events[e][0]);
              id < |place| && old(eventAt[id]) == OnEvent(e) && eventAt == old(eventAt)[id := Pending] &&
              pending == old(pending) + [id] && higher == (prio[id] >= prio[current.value]) &&
              forall other :: 0 <= other < |place| && old(eventAt[other]) == OnEvent(e) ==> prio[other] <= prio[id]
    {
      hide Holds, Ascends, EventValues, ReadyLists, DelayLists, Deadlines, TopIsHighest, Without;
      var id := events[e][0];
      HeadServes(e);
      ToPending(id, e);
      events := events[e := Without(events[e], id)];
      pending := pending + [id];
      eventAt := eventAt[id := Pending];
      higher := prio[id] >= prio[current.value];
    }

    lemma HeadServes(e: nat)
      requires Priorities() && EventLists() && e < |events| && events[e] != []
      ensures events[e][0] < |place| && eventAt[events[e][0]] == OnEvent(e)
      ensures forall other :: 0 <= other < |place| && eventAt[other] == OnEvent(e) ==> prio[other] <= prio[events[e][0]]
    {
      hide Holds, Ascends;
      var value := EventValues(prio, levels);
      HoldsAll(events[e], eventAt, OnEvent(e));
      AscendsRange(events[e], value);
      forall other: nat | other < |place| && eventAt[other] == OnEvent(e) ensures prio[other] <= prio[events[e][0]] {
        HoldsWhich(events[e], eventAt, OnEvent(e), other);
        var i :| 0 <= i < |events[e]| && events[e][i] == other;
        assert value[events[e][0]] <= value[events[e][i]];
      }
    }

    /** The lists after an event item moved to the end of the pending list. */
    lemma ToPending(id: nat, e: nat)
      requires Priorities() && EventLists() && e < |events| && id < |place| && eventAt[id] == OnEvent(e)
      ensures id in events[e] && Holds(Without(events[e], id), eventAt[id := Pending], OnEvent(e))
      ensures Ascends(Without(events[e], id), EventValues(prio, levels)) &&
              Holds(pending + [id], eventAt[id := Pending], Pending)
      ensures forall f: nat :: f < |events| && f != e ==> Holds(events[f], eventAt[id := Pending], OnEvent(f))
    {
      hide Holds, Ascends, Without, EventValues;
      HoldsLoses(events[e], eventAt, OnEvent(e), id, Pending);
      AscendsLoses(events[e], id, EventValues(prio, levels));
      HoldsGains(pending, eventAt, Pending, id, |pending|);
      assert InsertAt(pending, |pending|, id) == pending + [id];
      forall f: nat | f < |events| && f != e ensures Holds(events[f], eventAt[id := Pending], OnEvent(f)) {
        HoldsKeeps(events[f], eventAt, OnEvent(f), id, Pending);
      }
    }

    /** Conservation: each co-routine's generic item is on exactly one ready or delay list, its event
        item on at most one list, and only while it is blocked. */
    lemma OneListEach(id: nat)
      requires Valid() && id < |place|
      ensures if id in ready[prio[id]].items then id !in delayed && id !in overflow
              else (id in delayed) != (id in overflow)
      ensures forall p: nat :: p < levels && p != prio[id] ==> id !in ready[p].items
      ensures forall e: nat :: e < |events| && id in events[e] ==>
                id !in pending && id !in ready[prio[id]].items &&
                forall f: nat :: f < |events| && f != e ==> id !in events[f]
      ensures id in pending ==> id !in ready[prio[id]].items
    {
      hide Holds, Ascends, EventValues, Deadlines, TopIsHighest;
      HoldsWhich(delayed, place, Delayed, id);
      HoldsWhich(overflow, place, Overflow, id);
      HoldsWhich(pending, eventAt, Pending, id);
      forall p: nat | p < levels ensures id in ready[p].items <==> place[id] == Ready(p) {
        HoldsWhich(ready[p].items, place, Ready(p), id);
      }
      forall e: nat | e < |events| ensures id in events[e] <==> eventAt[id] == OnEvent(e) {
        HoldsWhich(events[e], eventAt, OnEvent(e), id);
      }
    }
  }

  /** The item comes last in the walk order of its list. */
  predicate EndsWalk(q: Queue, id: nat) {
    q.items != [] && q.pos <= |q.items| && WalkOrder(q.items, q.pos)[|q.items| - 1] == id
  }

  /** xPassedTicks. */
  function Passed(kernelTick: nat, lastTick: nat): (n: nat)
    ensures n < WRAP
  {
    (kernelTick - lastTick) % 0x1_0000_0000
  }

  lemma PassedReaches(kernelTick: nat, now: nat)
    requires kernelTick < WRAP
    ensures TickOf(now + Passed(kernelTick, TickOf(now))) == kernelTick
  {
  }

  /** The containers after the delay lists changed their roles, the list in use being empty. */
  function Turned(place: seq<Place>): (r: seq<Place>)
    ensures |r| == |place|
    ensures forall id :: 0 <= id < |place| ==>
              r[id] == if place[id] == Overflow then Delayed else if place[id] == Delayed then Overflow else place[id]
  {
    seq(|place|, id requires 0 <= id < |place| =>
      if place[id] == Overflow then Delayed else if place[id] == Delayed then Overflow else place[id])
  }

  lemma WithoutLength(s: seq<nat>, x: nat)
    requires x in s
    ensures |Without(s, x)| == |s| - 1
  {
  }

  /** xTimeToWake, which may wrap. */
  function WakeTime(tick: nat, ticks: nat): nat { (tick + ticks) % 0x1_0000_0000 }

  lemma WakeTimeIs(tick: nat, ticks: nat)
    requires tick < WRAP && ticks < WRAP
    ensures var w := WakeTime(tick, ticks);
            w == (if tick + ticks < WRAP then tick + ticks else tick + ticks - WRAP) &&
            (w < tick <==> tick + ticks >= WRAP)
  {
  }

  lemma AscendsRange(s: seq<nat>, value: seq<nat>)
    requires Ascends(s, value)
    ensures forall i :: 0 <= i < |s| ==> s[i] < |value|
    ensures forall i :: 0 <= i < |s| ==> value[s[0]] <= value[s[i]]
  {
  }

  lemma AppendedLength(q: Queue, x: nat)
    requires q.pos <= |q.items|
    ensures Appended(q, x).pos <= |Appended(q, x).items|
  {
  }

  lemma RemovedLength(q: Queue, x: nat)
    requires x in q.items && q.pos <= |q.items|
    ensures Removed(q, x).pos <= |Removed(q, x).items|
    ensures q.items != []
  {
  }

  // ---------- The wrap ----------

  /** Whether an item with this wake time, put on the list in use at this tick, is looked at and found
      expired before the count wraps. */
  predicate FoundBeforeWrap(tick: nat, wake: nat) {
    exists t: nat :: tick < t < WRAP && Expired(t, wake)
  }

  predicate Expired(t: nat, wake: nat) { t >= wake }

  /** Why both callers must ask for at least one tick: an item put on the list in use is readied before
      the lists are swapped, except when a delay of 0 is asked for on the last tick. */
  lemma FoundBeforeWrapIff(tick: nat, ticks: nat)
    requires tick < WRAP && ticks < WRAP && WakeTime(tick, ticks) >= tick
    ensures FoundBeforeWrap(tick, WakeTime(tick, ticks)) <==> !(ticks == 0 && tick == WRAP - 1)
  {
    hide WakeTime;
    WakeTimeIs(tick, ticks);
    var w := WakeTime(tick, ticks);
    if !(ticks == 0 && tick == WRAP - 1) {
      var t := if w > tick then w else tick + 1;
      assert tick < t < WRAP && Expired(t, w);
    }
  }

  /** The wake time names exactly one tick within the delay's range: the count equals it when `ticks`
      ticks have passed, and at no earlier one. */
  lemma WakeTimeIsExact(now: nat, ticks: nat, passed: nat)
    requires 0 < ticks < WRAP && 0 < passed <= ticks
    ensures TickOf(now + passed) == WakeTime(TickOf(now), ticks) <==> passed == ticks
  {
    var t := TickOf(now);
    assert TickOf(now + passed) == TickOf(t + passed);
    WakeTimeIs(t, ticks);
    WakeTimeIs(t, passed);
  }
}
