/**
 The intrusive doubly linked list.  An item carries its links, the list it is
 on and the structure it is embedded in (`data`); `Items` is the list as a
 sequence.
*/
module LinkedList {

  class Item<T> {
    var list: List?<T>
    var prev: Item?<T>
    var next: Item?<T>
    var data: T

    /** `item_init` */
    constructor (data: T)
      ensures list == null && prev == null && next == null && this.data == data
    {
      list, prev, next := null, null, null;
      this.data := data;
    }
  }

  class List<T> {
    var head: Item?<T>
    var tail: Item?<T>
    ghost var items: seq<Item<T>>

    /** The item at position `i`, or null before the first and after the last. */
    static ghost function At(s: seq<Item<T>>, i: int): Item?<T> { if 0 <= i < |s| then s[i] else null }

    /** The item at position `i` is linked to its neighbours and knows its list. */
    ghost predicate LinkedAt(i: int)
      requires 0 <= i < |items|
      reads this, items
    {
      items[i].list == this && items[i].prev == At(items, i - 1) && items[i].next == At(items, i + 1)
    }

    /** The links in both directions spell out `items`. */
    ghost predicate Valid()
      reads this, items
    {
      && head == At(items, 0)
      && tail == At(items, |items| - 1)
      && (forall i :: 0 <= i < |items| ==> LinkedAt(i))
      && (forall i, j :: 0 <= i < j < |items| ==> items[i] != items[j])
    }

    /** `list_init` */
    constructor ()
      ensures Valid() && items == []
    {
      head, tail, items := null, null, [];
    }

    method Append(item: Item<T>)
      requires Valid() && item.list == null
      modifies this, items, item
      ensures Valid() && items == old(items) + [item]
      ensures item.data == old(item.data)
      ensures forall x :: x in old(items) ==> x.data == old(x.data)
    {
      forall i | 0 <= i < |items| ensures items[i] != item {
        assert LinkedAt(i);
      }
      item.list := this;
      if tail == null {
        head := item;
      } else {
        tail.next := item;
      }
      item.prev := tail;
      item.next := null;
      tail := item;
      items := items + [item];
      forall i | 0 <= i < |items| ensures LinkedAt(i) {
        if i < |items| - 1 {
          assert items[i] == old(items)[i] && old(LinkedAt(i));
        }
      }
    }

    method Push(item: Item<T>)
      requires Valid() && item.list == null
      modifies this, items, item
      ensures Valid() && items == [item] + old(items)
      ensures item.data == old(item.data)
      ensures forall x :: x in old(items) ==> x.data == old(x.data)
    {
      forall i | 0 <= i < |items| ensures items[i] != item {
        assert LinkedAt(i);
      }
      item.list := this;
      if head == null && tail == null {
        tail := item;
      } else {
        head.prev := item;
      }
      item.next := head;
      item.prev := null;
      head := item;
      items := [item] + items;
      forall i | 0 <= i < |items| ensures LinkedAt(i) {
        if 0 < i {
          assert items[i] == old(items)[i - 1] && old(LinkedAt(i - 1));
        }
      }
    }

    /** The position of an item is determined by the list; it is passed for the proof only. */
    method Remove(item: Item<T>, ghost k: nat)
      requires Valid() && k < |items| && items[k] == item
      modifies this, items
      ensures Valid() && items == old(items)[..k] + old(items)[k + 1..]
      ensures item.list == null
      ensures forall x :: x in old(items) ==> x.data == old(x.data)
    {
      assert LinkedAt(k);
      assert 0 < k ==> item.prev == items[k - 1] && item.prev in items && LinkedAt(k - 1);
      assert k < |items| - 1 ==> item.next == items[k + 1] && item.next in items && LinkedAt(k + 1);
      item.list := null;
      if item.prev == null {
        head := item.next;
      } else {
        item.prev.next := item.next;
      }
      if item.next == null {
        tail := item.prev;
      } else {
        item.next.prev := item.prev;
      }
      items := items[..k] + items[k + 1..];
      forall i | 0 <= i < |items| ensures LinkedAt(i) {
        if i < k {
          assert items[i] == old(items)[i] && old(LinkedAt(i));
        } else {
          assert items[i] == old(items)[i + 1] && old(LinkedAt(i + 1));
        }
      }
    }
  }
}
