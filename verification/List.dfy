/** The doubly linked list of src/bscl_list.c and the queue that include/bscl_queue.h makes of it. */
module List {
  import opened Sequences

  class Item<!D> {
    const data: D
    const len: nat
    var next: Item?<D>
    var prev: Item?<D>

    constructor (data: D, len: nat)
      ensures this.data == data && this.len == len && next == null && prev == null
    {
      this.data, this.len := data, len;
      next, prev := null, null;
    }
  }

  /** The item at place i, none outside. */
  function At<D>(s: seq<Item<D>>, i: int): Item?<D> {
    if 0 <= i < |s| then s[i] else null
  }

  ghost predicate Distinct<D>(s: seq<Item<D>>) {
    forall i, j {:trigger Differ(s, i, j)} :: 0 <= i < j < |s| ==> Differ(s, i, j)
  }

  ghost predicate Differ<D>(s: seq<Item<D>>, i: int, j: int)
    requires 0 <= i < |s| && 0 <= j < |s|
  {
    s[i] != s[j]
  }

  ghost predicate LinkedAt<D>(s: seq<Item<D>>, i: int)
    requires 0 <= i < |s|
    reads s[i]
  {
    s[i].prev == At(s, i - 1) && s[i].next == At(s, i + 1)
  }

  class List<!D> {
    var head: Item?<D>
    var tail: Item?<D>
    var size: nat
    /** The items in order. */
    ghost var items: seq<Item<D>>

    ghost predicate Valid()
      reads this, items
    {
      && Distinct(items) && size == |items| && head == At(items, 0) && tail == At(items, |items| - 1)
      && forall i {:trigger LinkedAt(items, i)} :: 0 <= i < |items| ==> LinkedAt(items, i)
    }

    /** bscl_list_init. */
    constructor ()
      ensures Valid() && items == []
    {
      head, tail, size, items := null, null, 0, [];
    }

    /** A new item directly after item, or at the head if there is none; k is item's place. */
    method Insert(item: Item?<D>, data: D, len: nat, ghost k: int) returns (newItem: Item<D>)
      requires Valid() && -1 <= k < |items| && item == At(items, k)
      modifies this, items
      ensures Valid() && fresh(newItem) && newItem.data == data && newItem.len == len
      ensures items == Inserted(old(items), k + 1, newItem)
    {
      newItem := new Item(data, len);
      ghost var s := items;
      if item == null {
        newItem.next := head;
        head := newItem;
        newItem.prev := null;
      } else {
        assert LinkedAt(s, k);
        newItem.next := item.next;
        newItem.prev := item;
        item.next := newItem;
      }
      if newItem.next != null {
        newItem.next.prev := newItem;
      } else {
        tail := newItem;
      }
      size := size + 1;
      items := Inserted(s, k + 1, newItem);
      DistinctInserted(s, k + 1, newItem);
      forall i | 0 <= i < |items|
        ensures LinkedAt(items, i)
      {
        var j := if i <= k then i else i - 1;
        if i != k + 1 {
          assert old(LinkedAt(s, j));
          assert j < k ==> Differ(s, j, k);
          assert j < k + 1 < |s| ==> Differ(s, j, k + 1);
          assert 0 <= k < j ==> Differ(s, k, j);
          assert k + 1 < j ==> Differ(s, k + 1, j);
        }
      }
    }

    /** Takes item, which is at place k, out of the list; with nothing in the list, reports so. */
    method Remove(item: Item<D>, ghost k: int) returns (ok: bool)
      requires Valid() && (items == [] || (0 <= k < |items| && item == items[k]))
      modifies this, items
      ensures Valid() && (ok <==> old(items) != [])
      ensures items == if ok then Removed(old(items), k) else old(items)
    {
      if size == 0 {
        return false;
      }
      ghost var s := items;
      assert LinkedAt(s, k);
      if item.prev == null {
        head := item.next;
      } else {
        item.prev.next := item.next;
      }
      if item.next == null {
        tail := item.prev;
      } else {
        item.next.prev := item.prev;
      }
      size := size - 1;
      items := Removed(s, k);
      DistinctRemoved(s, k);
      forall i | 0 <= i < |items|
        ensures LinkedAt(items, i)
      {
        var j := if i < k then i else i + 1;
        assert old(LinkedAt(s, j));
        assert j < k - 1 ==> Differ(s, j, k - 1);
        assert j < k + 1 < |s| ==> Differ(s, j, k + 1);
        assert 0 <= k - 1 < j ==> Differ(s, k - 1, j);
        assert k + 1 < j ==> Differ(s, k + 1, j);
        assert j < k ==> Differ(s, j, k);
        assert k < j ==> Differ(s, k, j);
      }
      return true;
    }

    /** bscl_list_item_next and bscl_list_item_prev of a member. */
    lemma Neighbours(k: int)
      requires Valid() && 0 <= k < |items|
      ensures items[k].next == At(items, k + 1) && items[k].prev == At(items, k - 1)
    {
      assert LinkedAt(items, k);
    }

    // ----- the queue

    /** What the queue holds, the oldest first: it is pushed at the head and popped at the tail. */
    ghost function Waiting(): (q: seq<(D, nat)>)
      reads this
    {
      OldestFirst(items)
    }

    /** bscl_queue_push. */
    method Push(data: D, len: nat)
      requires Valid()
      modifies this, items
      ensures Valid() && Waiting() == old(Waiting()) + [(data, len)]
      ensures forall i :: 0 <= i < |items| ==> items[i] in old(items) || fresh(items[i])
    {
      ghost var s := items;
      var item := Insert(null, data, len, -1);
      PushedLast(s, item);
    }

    /** bscl_queue_pop; nothing comes out of an empty queue. */
    method Pop() returns (r: Popped<D>)
      requires Valid()
      modifies this, items
      ensures Valid()
      ensures old(Waiting()) == [] ==> r == Nothing && Waiting() == []
      ensures old(Waiting()) != [] ==> r.Something? && old(Waiting()) == [(r.data, r.len)] + Waiting()
      ensures forall i :: 0 <= i < |items| ==> items[i] in old(items)
    {
      var item := tail;
      PoppedFirst(items);
      if item != null {
        r := Something(item.data, item.len);
        var ok := Remove(item, |items| - 1);
      } else {
        r := Nothing;
      }
    }
  }

  function Load<D>(x: Item<D>): (D, nat) {
    (x.data, x.len)
  }

  function OldestFirst<D>(s: seq<Item<D>>): (q: seq<(D, nat)>)
    ensures |q| == |s| && forall i :: 0 <= i < |s| ==> q[i] == Load(s[|s| - 1 - i])
  {
    seq(|s|, i requires 0 <= i < |s| => Load(s[|s| - 1 - i]))
  }

  lemma PushedLast<D>(s: seq<Item<D>>, x: Item<D>)
    ensures OldestFirst(Inserted(s, 0, x)) == OldestFirst(s) + [Load(x)]
  {
    assert Inserted(s, 0, x) == [x] + s;
  }

  lemma PoppedFirst<D>(s: seq<Item<D>>)
    ensures s == [] ==> OldestFirst(s) == []
    ensures s != [] ==> OldestFirst(s) == [Load(s[|s| - 1])] + OldestFirst(Removed(s, |s| - 1))
  {
    if s != [] {
      assert Removed(s, |s| - 1) == s[..|s| - 1];
    }
  }

  datatype Popped<D> = Nothing | Something(data: D, len: nat)

  lemma DistinctRemoved<D>(s: seq<Item<D>>, k: int)
    requires Distinct(s) && 0 <= k < |s|
    ensures Distinct(Removed(s, k))
  {
    var r := Removed(s, k);
    forall i, j | 0 <= i < j < |r|
      ensures Differ(r, i, j)
    {
      assert Differ(s, if i < k then i else i + 1, if j < k then j else j + 1);
    }
  }

  lemma DistinctInserted<D>(s: seq<Item<D>>, k: int, x: Item<D>)
    requires Distinct(s) && 0 <= k <= |s| && x !in s
    ensures Distinct(Inserted(s, k, x))
  {
    var r := Inserted(s, k, x);
    forall i, j | 0 <= i < j < |r|
      ensures Differ(r, i, j)
    {
      if i != k && j != k {
        assert Differ(s, if i < k then i else i - 1, if j < k then j else j - 1);
      }
    }
  }

  datatype Call<D> = Push(data: D, len: nat) | Pop

  /** What a first-in first-out queue gives out for a run of calls. */
  function Given<D>(q: seq<(D, nat)>, calls: seq<Call<D>>): seq<Popped<D>>
    decreases |calls|
  {
    if calls == [] then []
    else match calls[0]
      case Push(data, len) => Given(q + [(data, len)], calls[1..])
      case Pop => if q == [] then [Nothing] + Given(q, calls[1..])
          else [Something(q[0].0, q[0].1)] + Given(q[1..], calls[1..])
  }

  /** Any run of calls gives out what such a queue would. */
  method Serve<D>(list: List<D>, calls: seq<Call<D>>) returns (out: seq<Popped<D>>)
    requires list.Valid()
    modifies list, list.items
    ensures list.Valid() && out == Given(old(list.Waiting()), calls)
    decreases |calls|
  {
    if calls == [] {
      return [];
    }
    match calls[0]
    case Push(data, len) =>
      list.Push(data, len);
      out := Serve(list, calls[1..]);
    case Pop =>
      ghost var q := list.Waiting();
      var r := list.Pop();
      if r != Nothing {
        assert q[1..] == list.Waiting();
      }
      out := Serve(list, calls[1..]);
      out := [r] + out;
  }
}
