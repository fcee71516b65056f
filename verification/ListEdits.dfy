/** The edits of a sibling list under its parent: append, insert, detach by index or by pointer,
    and sort_object.  The list seen from outside is the node sequence `items`. */
module ListEdits {
  import opened Common
  import opened SortSeq
  import opened SiblingList

  class Parent {
    var child: Node?
    ghost var items: seq<Node>

    ghost predicate Valid()
      reads this, items
    {
      Linked(items) && child == At(items, 0)
    }

    constructor ()
      ensures Valid() && items == []
    {
      child, items := null, [];
    }

    /** add_item_to_array: walk to the last sibling and hang the item on it. */
    method AddItemToArray(item: Node)
      requires Valid() && item !in items && item.next == null && item.prev == null
      modifies this, items, item
      ensures Valid() && items == old(items) + [item]
    {
      if child == null {
        child := item;
      } else {
        var last := child;
        ghost var i := 0;
        while last.next != null
          invariant i < |items| && last == items[i]
          decreases |items| - i
        {
          last := last.next;
          i := i + 1;
        }
        assert i == |items| - 1;
        last.next := item;
        item.prev := last;
      }
      items := items + [item];
    }

    /** The node `which` steps from the first one, or NULL. */
    method ItemAt(which: nat) returns (c: Node?)
      requires Valid()
      ensures c == At(items, which)
    {
      c := child;
      var left: nat := which;
      ghost var i := 0;
      while c != null && left > 0
        invariant i + left == which && i <= |items| && c == At(items, i)
        decreases left
      {
        c := c.next;
        left := left - 1;
        i := i + 1;
      }
    }

    /** insert_item_in_array: an index past the end is refused, the end itself appends. */
    method InsertItemInArray(which: nat, item: Node) returns (ok: bool)
      requires Valid() && item !in items && item.next == null && item.prev == null
      modifies this, items, item
      ensures Valid() && ok == (which <= |old(items)|)
      ensures items == if ok then InsertAt(old(items), which, item) else old(items)
    {
      var c := child;
      var left: nat := which;
      ghost var i := 0;
      while c != null && left > 0
        invariant i + left == which && i <= |items| && c == At(items, i)
        decreases left
      {
        c := c.next;
        left := left - 1;
        i := i + 1;
      }
      if left > 0 { return false; }
      if c == null {
        assert which == |items| && InsertAt(items, which, item) == items + [item];
        AddItemToArray(item);
        return true;
      }
      InsertBefore(c, which, item);
      return true;
    }

    method InsertBefore(c: Node, ghost i: nat, item: Node)
      requires Valid() && item !in items && i < |items| && c == items[i]
      modifies this, items, item
      ensures Valid() && items == InsertAt(old(items), i, item)
    {
      item.next := c;
      item.prev := c.prev;
      c.prev := item;
      if c == child {
        child := item;
      } else {
        item.prev.next := item;
      }
      items := InsertAt(items, i, item);
    }

    /** cJSON_DetachItemViaPointer on an item of this list. */
    method DetachItem(item: Node, ghost i: nat)
      requires Valid() && i < |items| && item == items[i]
      modifies this, items
      ensures Valid() && items == RemoveAt(old(items), i) && item !in items
      ensures item.next == null && item.prev == null
    {
      if item.prev != null { item.prev.next := item.next; }
      if item.next != null { item.next.prev := item.prev; }
      if item == child { child := item.next; }
      item.prev := null;
      item.next := null;
      items := RemoveAt(items, i);
    }

    /** detach_item_from_array. */
    method DetachItemFromArray(which: nat) returns (c: Node?)
      requires Valid()
      modifies this, items
      ensures Valid() && c == At(old(items), which)
      ensures items == if which < |old(items)| then RemoveAt(old(items), which) else old(items)
      ensures c != null ==> c.next == null && c.prev == null && c !in items
    {
      c := ItemAt(which);
      if c != null { DetachItem(c, which); }
    }

    /** sort_object. */
    method SortObject(cs: bool)
      requires Valid()
      modifies this, items
      ensures Valid() && Tagged(items) == Sort(Tagged(old(items)), cs)
    {
      ghost var t;
      child, t := SortList(child, items, cs);
      items := t;
    }
  }
}
