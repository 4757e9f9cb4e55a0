/**
 The translation buffer as it is laid out in memory: a block of entries, each
 linked on exactly one of two lists, the entries in use in order of use and the
 free ones.  Every operation is proved to be the operation of `Tlb` on the
 sequence of entries in use.
*/
module TlbHeap {
  import opened LinkedList
  import opened Sv32
  import T = Tlb

  type Slot = Item<T.Entry>

  const BLANK := T.Entry(0, 0, 0, false, false)

  /** The elements of `s` outside `gone`, in order. */
  ghost function Keep(s: seq<Slot>, gone: set<Slot>): (r: seq<Slot>)
    ensures forall x :: x in r ==> x in s && x !in gone
    ensures forall x :: x in s && x !in gone ==> x in r
  {
    if s == [] then [] else (if s[0] in gone then [] else [s[0]]) + Keep(s[1..], gone)
  }

  ghost function DataIn(s: seq<Slot>, data: map<Slot, T.Entry>): seq<T.Entry>
    requires forall x :: x in s ==> x in data
  {
    seq(|s|, i requires 0 <= i < |s| => data[s[i]])
  }

  ghost predicate Distinct(s: seq<Slot>) { forall i, j :: 0 <= i < j < |s| ==> s[i] != s[j] }

  lemma {:induction false} KeepNone(s: seq<Slot>, gone: set<Slot>)
    requires forall x :: x in s ==> x !in gone
    ensures Keep(s, gone) == s
  {
    if s != [] {
      KeepNone(s[1..], gone);
    }
  }

  /** Dropping one more element cuts it out of what was kept. */
  lemma KeepStep(s: seq<Slot>, gone: set<Slot>)
    requires s != []
    ensures Keep(s, gone) == if s[0] in gone then Keep(s[1..], gone) else [s[0]] + Keep(s[1..], gone)
  {
    assert [] + Keep(s[1..], gone) == Keep(s[1..], gone);
  }

  lemma KeepOfNothing(gone: set<Slot>)
    ensures Keep([], gone) == []
  {}

  lemma {:induction false} KeepLess(s: seq<Slot>, gone: set<Slot>, x: Slot, k: nat)
    requires Distinct(s) && x !in gone && k < |Keep(s, gone)| && Keep(s, gone)[k] == x
    ensures Keep(s, gone + {x}) == T.Without(Keep(s, gone), k)
  {
    hide Keep, T.Without;
    KeepOfNothing(gone);
    KeepStep(s, gone);
    KeepStep(s, gone + {x});
    var rest := Keep(s[1..], gone);
    if s[0] in gone {
      KeepLess(s[1..], gone, x, k);
    } else if s[0] == x {
      KeepSame(s[1..], gone, x);
      CutFirst(s[0], rest);
      assert k == 0 by { KeepWithin(s[1..], gone); }
    } else {
      KeepLess(s[1..], gone, x, k - 1);
      CutLater(s[0], rest, k);
    }
  }

  lemma {:induction false} KeepWithin(s: seq<Slot>, gone: set<Slot>)
    ensures forall x :: x in Keep(s, gone) ==> x in s
  {
    hide Keep;
    KeepOfNothing(gone);
    if s != [] {
      KeepStep(s, gone);
      KeepWithin(s[1..], gone);
    }
  }

  lemma CutFirst(x: Slot, rest: seq<Slot>)
    ensures T.Without([x] + rest, 0) == rest
  {}

  lemma CutLater(x: Slot, rest: seq<Slot>, k: nat)
    requires 0 < k <= |rest|
    ensures T.Without([x] + rest, k) == [x] + T.Without(rest, k - 1)
  {}

  lemma {:induction false} KeepSame(s: seq<Slot>, gone: set<Slot>, x: Slot)
    requires x !in s
    ensures Keep(s, gone + {x}) == Keep(s, gone)
  {
    if s != [] {
      KeepSame(s[1..], gone, x);
    }
  }

  /** Dropping the slots a fence hits is the fence on their contents. */
  lemma {:induction false} KeepIsFlush(s: seq<Slot>, gone: set<Slot>, data: map<Slot, T.Entry>, f: T.Fence)
    requires forall x :: x in s ==> x in data && (x in gone <==> T.Hits(f, data[x]))
    ensures DataIn(Keep(s, gone), data) == T.Flush(DataIn(s, data), f)
  {
    hide T.Hits;
    if s != [] {
      KeepIsFlush(s[1..], gone, data, f);
      var rest := Keep(s[1..], gone);
      DataCons(s[0], s[1..], data);
      assert s == [s[0]] + s[1..];
      DataCons(s[0], rest, data);
      assert s[0] in s;
      assert [] + rest == rest;
      assert DataIn(s, data)[1..] == DataIn(s[1..], data);
    }
  }

  lemma DataCons(x: Slot, s: seq<Slot>, data: map<Slot, T.Entry>)
    requires x in data && forall y :: y in s ==> y in data
    ensures DataIn([x] + s, data) == [data[x]] + DataIn(s, data)
  {}

  class Buffer {
    var slots: seq<Slot>
    var lru: List<T.Entry>
    var free: List<T.Entry>

    /** Both lists are well formed and hold slots of this buffer only. */
    ghost predicate Lists()
      reads this, lru, free, lru.items, free.items
    {
      && lru != free && lru.Valid() && free.Valid()
      && Distinct(slots) && |slots| > 0
      && (forall i :: 0 <= i < |lru.items| ==> lru.items[i] in slots)
      && (forall i :: 0 <= i < |free.items| ==> free.items[i] in slots)
    }

    /** Each slot is on one of the lists, and the lists together are as long as the block. */
    ghost predicate Valid()
      reads this, lru, free, lru.items, free.items
    {
      && Lists()
      && (forall x :: x in slots ==> x in lru.items || x in free.items)
      && |lru.items| + |free.items| == |slots|
    }

    /** As `Valid`, while slot `x` is on its way from one list to another. */
    ghost predicate ValidBut(x: Slot)
      reads this, lru, free, lru.items, free.items, x
    {
      && Lists()
      && x in slots && x.list == null
      && (forall y :: y in slots && y != x ==> y in lru.items || y in free.items)
      && |lru.items| + |free.items| == |slots| - 1
    }

    /** The entries in use, most recent first. */
    ghost function Contents(): seq<T.Entry>
      reads this, lru, lru.items
    {
      seq(|lru.items|, i requires 0 <= i < |lru.items| reads this, lru, lru.items => lru.items[i].data)
    }

    lemma Apart()
      requires lru != free && lru.Valid() && free.Valid()
      ensures forall i, j :: 0 <= i < |lru.items| && 0 <= j < |free.items| ==> lru.items[i] != free.items[j]
    {
      forall i, j | 0 <= i < |lru.items| && 0 <= j < |free.items| ensures lru.items[i] != free.items[j] {
        assert lru.LinkedAt(i) && free.LinkedAt(j);
      }
    }

    /** A slot that is on no list is among the items of neither. */
    lemma Off(x: Slot)
      requires lru.Valid() && free.Valid() && x.list == null
      ensures x !in lru.items && x !in free.items
    {
      forall i | 0 <= i < |lru.items| ensures lru.items[i] != x {
        assert lru.LinkedAt(i);
      }
      forall i | 0 <= i < |free.items| ensures free.items[i] != x {
        assert free.LinkedAt(i);
      }
    }

    lemma OnOneList(x: Slot)
      requires Valid() && x in slots
      ensures x in lru.items <==> x !in free.items
      ensures x in lru.items <==> x.list == lru
    {
      if x in lru.items {
        var i :| 0 <= i < |lru.items| && lru.items[i] == x;
        assert lru.LinkedAt(i);
      }
      if x in free.items {
        var i :| 0 <= i < |free.items| && free.items[i] == x;
        assert free.LinkedAt(i);
      }
    }

    /** `rv32_tlb_init`: all entries are free. */
    constructor (size: nat)
      requires size != 0
      ensures Valid() && Contents() == [] && |slots| == size
      ensures fresh(lru) && fresh(free) && forall i :: 0 <= i < |slots| ==> fresh(slots[i])
    {
      slots := [];
      lru := new List();
      free := new List();
      new;
      var i := 0;
      while i < size
        invariant 0 <= i <= size
        invariant lru != free && lru.Valid() && free.Valid() && lru.items == []
        invariant fresh(lru) && fresh(free)
        invariant slots == free.items && |slots| == i
        invariant forall i :: 0 <= i < |slots| ==> fresh(slots[i])
      {
        var x := new Item(BLANK);
        free.Append(x);
        slots := slots + [x];
        i := i + 1;
      }
    }

    /** Unlink a slot in use. */
    method TakeUsed(x: Slot, ghost k: nat)
      requires Valid() && k < |lru.items| && lru.items[k] == x
      modifies lru, lru.items
      ensures ValidBut(x)
      ensures lru.items == T.Without(old(lru.items), k) && free.items == old(free.items)
      ensures forall y :: y in slots ==> y.data == old(y.data)
    {
      hide List.Valid, List.LinkedAt;
      Apart();
      ghost var before := lru.items;
      lru.Remove(x, k);
      assert forall y :: y in before && y != x ==> y in lru.items;
    }

    /** Unlink the first free slot. */
    method TakeFree(x: Slot)
      requires Valid() && free.items != [] && free.items[0] == x
      modifies free, free.items
      ensures ValidBut(x)
      ensures lru.items == old(lru.items) && free.items == old(free.items)[1..]
      ensures forall y :: y in slots ==> y.data == old(y.data)
    {
      hide List.Valid, List.LinkedAt;
      Apart();
      ghost var before := free.items;
      free.Remove(x, 0);
      assert free.items == before[1..];
      assert forall y :: y in before && y != x ==> y in free.items;
    }

    /** Link a slot in front of those in use. */
    method PutUsed(x: Slot)
      requires ValidBut(x)
      modifies lru, lru.items, x
      ensures Valid()
      ensures lru.items == [x] + old(lru.items) && free.items == old(free.items)
      ensures forall y :: y in slots ==> y.data == old(y.data)
    {
      hide List.Valid, List.LinkedAt;
      Apart();
      Off(x);
      ghost var before := lru.items;
      lru.Push(x);
      assert forall y :: y in before ==> y in lru.items;
      assert lru.items[0] == x;
    }

    /** Link a slot in front of the free ones. */
    method PutFree(x: Slot)
      requires ValidBut(x)
      modifies free, free.items, x
      ensures Valid()
      ensures free.items == [x] + old(free.items) && lru.items == old(lru.items)
      ensures forall y :: y in slots ==> y.data == old(y.data)
    {
      hide List.Valid, List.LinkedAt;
      Apart();
      Off(x);
      ghost var before := free.items;
      free.Push(x);
      assert forall y :: y in before ==> y in free.items;
      assert free.items[0] == x;
    }

    lemma Ends()
      requires Valid()
      ensures free.head == null <==> free.tail == null
      ensures free.head == null ==> free.items == [] && lru.items != [] && lru.items[|lru.items| - 1] == lru.tail
      ensures free.head != null ==> free.items != [] && free.items[0] == free.head
    {}

    /** A free slot if there is one, else the least recently used one. */
    method TakeSlot() returns (x: Slot)
      requires Valid()
      modifies lru, free, lru.items, free.items
      ensures ValidBut(x)
      ensures lru.items == Staying(old(lru.items), |slots|)
      ensures forall y :: y in slots ==> y.data == old(y.data)
    {
      hide List.Valid, List.LinkedAt;
      Ends();
      if !(free.head == null && free.tail == null) {
        x := free.head;
        TakeFree(x);
      } else {
        x := lru.tail;
        TakeUsed(x, |lru.items| - 1);
      }
    }

    /** Give a slot new contents and make it the most recent. */
    method Fill(x: Slot, e: T.Entry)
      requires ValidBut(x)
      modifies lru, lru.items, x
      ensures Valid()
      ensures lru.items == [x] + old(lru.items) && x.data == e
      ensures forall y :: y in slots && y != x ==> y.data == old(y.data)
    {
      hide List.Valid, List.LinkedAt;
      Off(x);
      x.data := e;
      PutUsed(x);
    }

    /** The slots that stay in use when one more entry is added. */
    static ghost function Staying(s: seq<Slot>, size: nat): (r: seq<Slot>)
      requires 0 < size
      ensures r <= s
    {
      if |s| < size then s else s[..|s| - 1]
    }

    method Insert(e: T.Entry) returns (x: Slot)
      requires Valid()
      modifies lru, free, slots
      ensures Valid()
      ensures lru.items == [x] + Staying(old(lru.items), |slots|)
      ensures x.data == e && forall y :: y in Staying(old(lru.items), |slots|) ==> y.data == old(y.data)
    {
      hide List.Valid, List.LinkedAt;
      x := TakeSlot();
      Off(x);
      Fill(x, e);
    }

    /** The new entry in front, the others as they were. */
    method InsertFront(e: T.Entry)
      requires Valid()
      modifies lru, free, slots
      ensures Valid()
      ensures |Contents()| == 1 + (if |old(Contents())| < |slots| then |old(Contents())| else |slots| - 1)
      ensures Contents()[0] == e && forall i :: 0 < i < |Contents()| ==> Contents()[i] == old(Contents())[i - 1]
    {
      hide Valid, Lists, List.Valid, List.LinkedAt, Staying;
      StayingData();
      ghost var stay := Staying(lru.items, |slots|);
      var x := Insert(e);
      assert forall i :: 0 < i < |lru.items| ==> lru.items[i] == stay[i - 1];
    }

    lemma StayingData()
      requires Valid()
      ensures |slots| > 0
      ensures var stay := Staying(lru.items, |slots|);
              && |stay| == (if |Contents()| < |slots| then |Contents()| else |slots| - 1)
              && forall i :: 0 <= i < |stay| ==> stay[i] in slots && stay[i].data == Contents()[i]
    {}

    /** `rv32_tlb_add_mapping` */
    method AddMapping(asid: nat, virt: nat, pte: Pte, mega: bool, global: bool)
      requires Valid()
      modifies lru, free, slots
      ensures Valid()
      ensures Contents() == T.Add(old(Contents()), |slots|, T.Entry(pte, T.VpnOf(virt, mega), asid, global, mega))
    {
      hide Valid, Contents, List.Valid, List.LinkedAt, T.VpnOf, T.Add;
      Fits();
      ghost var was := Contents();
      InsertFront(T.Entry(pte, T.VpnOf(virt, mega), asid, global, mega));
      AddIs(was, Contents(), |slots|, T.Entry(pte, T.VpnOf(virt, mega), asid, global, mega));
    }

    static lemma AddIs(was: seq<T.Entry>, now: seq<T.Entry>, size: nat, e: T.Entry)
      requires |was| <= size && 0 < size && |now| == 1 + (if |was| < size then |was| else size - 1)
      requires now[0] == e && forall i :: 0 < i < |now| ==> now[i] == was[i - 1]
      ensures now == T.Add(was, size, e)
    {}

    lemma Fits()
      requires Valid()
      ensures |Contents()| <= |slots| && 0 < |slots|
    {}

    /** The search loop of `rv32_tlb_get_mapping` and `rv32_tlb_remove_mapping`. */
    method Search(asid: nat, virt: nat) returns (x: Item?<T.Entry>, ghost k: nat)
      requires Valid()
      ensures k == T.FirstMatch(Contents(), asid, virt)
      ensures if k < |lru.items| then x == lru.items[k] else x == null
    {
      hide T.Matches;
      x, k := lru.head, 0;
      while x != null
        invariant k <= |lru.items| && x == List.At(lru.items, k)
        invariant forall i :: 0 <= i < k ==> !T.Matches(Contents()[i], asid, virt)
        decreases |lru.items| - k
      {
        assert lru.LinkedAt(k) && Contents()[k] == x.data;
        if T.Matches(x.data, asid, virt) {
          FirstAt(Contents(), asid, virt, k);
          return;
        }
        x, k := x.next, k + 1;
      }
      FirstAt(Contents(), asid, virt, k);
    }

    static lemma FirstAt(s: seq<T.Entry>, asid: nat, virt: nat, k: nat)
      requires k <= |s| && (k < |s| ==> T.Matches(s[k], asid, virt))
      requires forall i :: 0 <= i < k ==> !T.Matches(s[i], asid, virt)
      ensures k == T.FirstMatch(s, asid, virt)
    {
      hide T.Matches;
    }

    /** `move_lru_entry_to_front` */
    method MoveToFront(x: Slot, ghost k: nat)
      requires Valid() && k < |lru.items| && lru.items[k] == x
      modifies lru, lru.items
      ensures Valid() && lru.items == T.ToFront(old(lru.items), k)
      ensures forall y :: y in slots ==> y.data == old(y.data)
    {
      if lru.head == x {
        assert k == 0;
        assert lru.items == [x] + lru.items[1..];
        return;
      }
      hide List.Valid, List.LinkedAt;
      TakeUsed(x, k);
      PutUsed(x);
    }

    /** A noisy use makes the entry the most recent. */
    method Use(x: Slot, ghost k: nat)
      requires Valid() && k < |lru.items| && lru.items[k] == x
      modifies lru, lru.items
      ensures Valid() && Contents() == T.ToFront(old(Contents()), k)
    {
      hide List.Valid, List.LinkedAt;
      MoveToFront(x, k);
    }

    /** `rv32_tlb_get_mapping` */
    method GetMapping(asid: nat, virt: nat, noisy: bool) returns (found: bool, pte: Pte, mega: bool)
      requires Valid()
      modifies lru, slots
      ensures Valid()
      ensures var s, k := old(Contents()), T.FirstMatch(old(Contents()), asid, virt);
              && found == (k < |s|)
              && (found ==> pte == s[k].pte && mega == s[k].mega)
              && Contents() == if found && noisy then T.ToFront(s, k) else s
    {
      hide T.FirstMatch, T.Matches;
      var x, k := Search(asid, virt);
      if x == null {
        return false, 0, false;
      }
      found, pte, mega := true, x.data.pte, x.data.mega;
      hide List.Valid, List.LinkedAt;
      if noisy {
        Use(x, k);
      }
    }

    /** `invalidate_tlb_entry` */
    method Invalidate(x: Slot, ghost k: nat)
      requires Valid() && k < |lru.items| && lru.items[k] == x
      modifies lru, lru.items, free, free.items
      ensures Valid() && lru.items == T.Without(old(lru.items), k)
      ensures forall y :: y in slots ==> y.data == old(y.data)
    {
      hide List.Valid, List.LinkedAt;
      TakeUsed(x, k);
      PutFree(x);
    }

    /** Giving up an entry leaves the others in order. */
    method Discard(x: Slot, ghost k: nat)
      requires Valid() && k < |lru.items| && lru.items[k] == x
      modifies lru, lru.items, free, free.items
      ensures Valid() && Contents() == T.Without(old(Contents()), k)
    {
      hide List.Valid, List.LinkedAt;
      Invalidate(x, k);
    }

    /** `rv32_tlb_remove_mapping` */
    method RemoveMapping(asid: nat, virt: nat)
      requires Valid()
      modifies lru, free, slots
      ensures Valid() && Contents() == T.Remove(old(Contents()), asid, virt)
    {
      hide T.FirstMatch, T.Matches;
      var x, k := Search(asid, virt);
      hide List.Valid, List.LinkedAt;
      if x != null {
        Discard(x, k);
      }
    }

    /** The slots hold what `data` records. */
    ghost predicate Intact(data: map<Slot, T.Entry>)
      reads this, slots
    {
      forall x :: x in slots ==> x in data && x.data == data[x]
    }

    /** An entry that is in use goes to the free list. */
    method DropOne(x: Slot, ghost was: seq<Slot>, ghost gone: set<Slot>, ghost data: map<Slot, T.Entry>)
      requires Valid() && x in lru.items && lru.items == Keep(was, gone) && Distinct(was) && Intact(data)
      modifies lru, free, slots
      ensures Valid() && lru.items == Keep(was, gone + {x}) && Intact(data)
    {
      hide List.Valid, List.LinkedAt;
      ghost var k :| 0 <= k < |lru.items| && lru.items[k] == x;
      KeepLess(was, gone, x, k);
      Invalidate(x, k);
    }

    /** One turn of a flush loop: it drops an entry that is in use and hit. */
    method FlushOne(x: Slot, f: T.Fence, ghost was: seq<Slot>, ghost gone: set<Slot>, ghost data: map<Slot, T.Entry>)
      returns (ghost more: set<Slot>)
      requires Valid() && x in slots && lru.items == Keep(was, gone) && Distinct(was) && Intact(data) && x in data
      modifies lru, free, slots
      ensures Valid() && lru.items == Keep(was, more) && Intact(data)
      ensures more == if x in was && x !in gone && T.Hits(f, data[x]) then gone + {x} else gone
    {
      hide T.Hits, List.Valid, List.LinkedAt, Distinct;
      OnOneList(x);
      more := gone;
      if x.list == lru && T.Hits(f, x.data) {
        more := gone + {x};
        DropOne(x, was, gone, data);
      }
    }

    /** `gone` is what a flush has dropped from `was` after `i` turns. */
    static ghost predicate Dropped(gone: set<Slot>, was: seq<Slot>, block: seq<Slot>, i: nat,
                                   data: map<Slot, T.Entry>, f: T.Fence)
      requires i <= |block| && forall x :: x in block ==> x in data
    {
      && (forall x :: x in gone ==> x in was && x in data && T.Hits(f, data[x]))
      && (forall j :: 0 <= j < i && block[j] in was && T.Hits(f, data[block[j]]) ==> block[j] in gone)
    }

    static lemma DropStart(was: seq<Slot>, block: seq<Slot>, data: map<Slot, T.Entry>, f: T.Fence)
      requires forall x :: x in block ==> x in data
      ensures Keep(was, {}) == was && Dropped({}, was, block, 0, data, f)
    {
      KeepNone(was, {});
    }

    static lemma DropStep(gone: set<Slot>, was: seq<Slot>, block: seq<Slot>, i: nat, data: map<Slot, T.Entry>,
                          f: T.Fence)
      requires i < |block| && (forall x :: x in block ==> x in data) && Dropped(gone, was, block, i, data, f)
      ensures var x := block[i];
              var more := if x in was && x !in gone && T.Hits(f, data[x]) then gone + {x} else gone;
              Dropped(more, was, block, i + 1, data, f)
    {
      hide T.Hits;
    }

    /** The loop of the four flushes: it runs over the block of entries, not over the list. */
    method FlushAll(f: T.Fence, ghost data: map<Slot, T.Entry>) returns (ghost gone: set<Slot>)
      requires Valid() && Distinct(lru.items) && Intact(data) && forall x :: x in slots ==> x in data
      modifies lru, free, slots
      ensures Valid() && lru.items == Keep(old(lru.items), gone) && Intact(data)
      ensures Dropped(gone, old(lru.items), slots, |slots|, data, f)
    {
      hide T.Hits, Valid, Dropped, Keep, Intact, Distinct;
      ghost var was := lru.items;
      gone := {};
      DropStart(was, slots, data, f);
      var i := 0;
      while i < |slots|
        invariant 0 <= i <= |slots| && Valid() && Intact(data)
        invariant lru.items == Keep(was, gone)
        invariant Dropped(gone, was, slots, i, data, f)
      {
        DropStep(gone, was, slots, i, data, f);
        gone := FlushOne(slots[i], f, was, gone, data);
        i := i + 1;
      }
    }

    /** `rv32_tlb_flush`, `_by_asid`, `_by_addr` and `_by_asid_and_addr`; they differ in which entries they hit. */
    method Flush(f: T.Fence)
      requires Valid()
      modifies lru, free, slots
      ensures Valid() && Contents() == T.Flush(old(Contents()), f)
    {
      ghost var was := lru.items;
      ghost var data := map x | x in slots :: x.data;
      assert Distinct(was);
      hide T.Hits, List.Valid, List.LinkedAt;
      assert Contents() == DataIn(was, data);
      ghost var gone := FlushAll(f, data);
      KeepIsFlush(was, gone, data, f);
      assert Contents() == DataIn(lru.items, data);
    }

    /** `rv32_tlb_resize`: a new block of entries, all free. */
    method Resize(size: nat)
      requires size != 0
      modifies this
      ensures Valid() && Contents() == [] && |slots| == size
      ensures fresh(lru) && fresh(free) && forall i :: 0 <= i < |slots| ==> fresh(slots[i])
    {
      var b := new Buffer(size);
      slots, lru, free := b.slots, b.lru, b.free;
    }
  }
}
