/**
 The cache of decoded instructions on its linked list, most recently used page
 first, proved to be `InstrCache.Fetch`.
*/
module InstrCacheHeap {
  import opened Memory
  import opened InstrCache
  import opened LinkedList
  import PhysMem
  import T = Tlb

  class Cache<I> {
    const decode: bv32 -> I
    const list: List<Page<I>>

    ghost function Contents(): seq<Page<I>>
      reads list, list.items
    {
      seq(|list.items|, i requires 0 <= i < |list.items| reads list, list.items => list.items[i].data)
    }

    /** The list is well formed and its pages are current. */
    ghost predicate Valid(m: Mem)
      reads list, list.items
    {
      list.Valid() && Current(decode, m, Contents())
    }

    constructor (decode: bv32 -> I)
      ensures this.decode == decode && list.Valid() && Contents() == [] && fresh(list)
    {
      this.decode := decode;
      list := new List();
    }

    /** `cache_item_page_decode` */
    method DecodeInto(space: PhysMem.Space, base: nat) returns (instrs: seq<I>)
      requires space.Valid() && base % FRAME_SIZE == 0
      ensures instrs == DecodePage(decode, space.View(), base)
    {
      hide PhysMem.Space.Valid, PhysMem.Space.View, Memory.Read32;
      instrs := [];
      var i := 0;
      while i < WORDS
        invariant 0 <= i <= WORDS && |instrs| == i
        invariant forall j :: 0 <= j < i ==> instrs[j] == decode(Memory.Read32(space.View(), base + 4 * j))
      {
        WordAligned(base, i);
        var w := space.Read32(base + 4 * i);
        instrs := instrs + [decode(w)];
        i := i + 1;
      }
    }

    static lemma WordAligned(base: nat, i: nat)
      requires base % FRAME_SIZE == 0
      ensures (base + 4 * i) % 4 == 0
    {
      assert base == 4 * (1024 * (base / FRAME_SIZE));
    }

    /** `cache_hit` */
    method Find(phys: nat) returns (x: Item?<Page<I>>, ghost k: nat)
      requires list.Valid()
      ensures k == Hit(Contents(), phys)
      ensures if k < |list.items| then x == list.items[k] else x == null
    {
      hide PageOf;
      x, k := list.head, 0;
      while x != null
        invariant k <= |list.items| && x == List.At(list.items, k)
        invariant forall i :: 0 <= i < k ==> Contents()[i].addr != PageOf(phys)
        decreases |list.items| - k
      {
        assert list.LinkedAt(k) && Contents()[k] == x.data;
        if x.data.addr == PageOf(phys) {
          return;
        }
        x, k := x.next, k + 1;
      }
    }

    /** Replace the data of the item at position `k`. */
    method SetData(x: Item<Page<I>>, ghost k: nat, p: Page<I>)
      requires list.Valid() && k < |list.items| && list.items[k] == x
      modifies x
      ensures list.Valid() && list.items == old(list.items) && Contents() == old(Contents())[k := p]
    {
      x.data := p;
      forall i | 0 <= i < |list.items| ensures list.LinkedAt(i) {
        assert old(list.LinkedAt(i));
      }
    }

    /** Relink an item in front of the others. */
    method MoveItem(x: Item<Page<I>>, ghost k: nat)
      requires list.Valid() && k < |list.items| && list.items[k] == x
      modifies list, list.items
      ensures list.Valid() && list.items == T.ToFront(old(list.items), k)
      ensures forall y :: y in old(list.items) ==> y.data == old(y.data)
    {
      Front();
      hide List.Valid, List.LinkedAt;
      if list.head != x {
        list.Remove(x, k);
        list.Push(x);
      } else {
        assert list.items == [x] + T.Without(list.items, 0);
      }
    }

    /** Move the item at position `k` to the front unless it is there. */
    method MoveToFront(x: Item<Page<I>>, ghost k: nat)
      requires list.Valid() && k < |list.items| && list.items[k] == x
      modifies list, list.items
      ensures list.Valid() && Contents() == T.ToFront(old(Contents()), k)
      ensures forall y :: y in list.items ==> y in old(list.items)
    {
      hide List.Valid, List.LinkedAt;
      MoveItem(x, k);
    }

    lemma Front()
      requires list.Valid()
      ensures forall i :: 0 <= i < |list.items| && list.items[i] == list.head ==> i == 0
    {}

    method ToFront(x: Item<Page<I>>, ghost k: nat, p: Page<I>)
      requires list.Valid() && k < |list.items| && list.items[k] == x
      modifies list, list.items
      ensures list.Valid() && Contents() == [p] + T.Without(old(Contents()), k)
      ensures forall y :: y in list.items ==> y in old(list.items)
    {
      hide List.Valid, List.LinkedAt;
      SetData(x, k, p);
      MoveToFront(x, k);
    }

    /** A new item in front. */
    method Insert(p: Page<I>)
      requires list.Valid()
      modifies list, list.items
      ensures list.Valid() && Contents() == [p] + old(Contents())
      ensures forall y :: y in list.items ==> y in old(list.items) || fresh(y)
    {
      var x := new Item(p);
      list.Push(x);
    }

    /** `update_cache_item`, then to the front. */
    method Update(space: PhysMem.Space, x: Item<Page<I>>, ghost k: nat) returns (p: Page<I>)
      requires space.Valid() && list.Valid() && k < |list.items| && list.items[k] == x
      requires x.data.addr % FRAME_SIZE == 0 && Wired(space.View(), x.data.addr)
      modifies list, list.items, space`ftl0
      ensures space.Valid() && list.Valid() && k < |old(Contents())| && old(Contents())[k] == old(x.data)
      ensures p == Refresh(decode, old(space.View()), old(x.data))
      ensures space.View() == MarkValid(old(space.View()), old(x.data.addr))
      ensures Contents() == [p] + T.Without(old(Contents()), k)
      ensures forall y :: y in list.items ==> y in old(list.items)
    {
      hide PhysMem.Space.Valid, PhysMem.Space.View, List.Valid, List.LinkedAt, DecodePage, FrameOf, Wired, T.Without;
      p := x.data;
      var _, valid := space.Query(p.addr);
      if !valid {
        var instrs := DecodeInto(space, p.addr);
        p := Page(p.addr, instrs);
        space.SetValid(p.addr);
      }
      ToFront(x, k, p);
    }

    static lemma PageAligned(phys: nat)
      ensures PageOf(phys) % FRAME_SIZE == 0
    {}

    /** `cache_try_add` for an address that has a frame. */
    method Add(space: PhysMem.Space, phys: nat) returns (p: Page<I>)
      requires space.Valid() && list.Valid() && Wired(space.View(), phys)
      modifies list, list.items, space`ftl0
      ensures space.Valid() && list.Valid()
      ensures p == Page(PageOf(phys), DecodePage(decode, old(space.View()), PageOf(phys)))
      ensures space.View() == MarkValid(old(space.View()), phys)
      ensures Contents() == [p] + old(Contents())
      ensures forall y :: y in list.items ==> y in old(list.items) || fresh(y)
    {
      hide PhysMem.Space.Valid, PhysMem.Space.View, List.Valid, List.LinkedAt, DecodePage, FrameOf, Wired, PageOf;
      PageAligned(phys);
      var instrs := DecodeInto(space, PageOf(phys));
      p := Page(PageOf(phys), instrs);
      Insert(p);
      space.SetValid(phys);
    }

    /** `fetch_instr` */
    method Fetch(space: PhysMem.Space, phys: nat) returns (instr: I)
      requires space.Valid() && Valid(space.View()) && phys < SPACE && phys % 4 == 0
      modifies list, list.items, space`ftl0
      ensures space.Valid() && Valid(space.View()) && Full(old(Contents()))
      ensures Fetched(instr, space.View(), Contents()) ==
              InstrCache.Fetch(decode, old(space.View()), old(Contents()), phys)
      ensures instr == decode(Memory.Read32(old(space.View()), phys))
      ensures forall y :: y in list.items ==> y in old(list.items) || fresh(y)
    {
      hide PhysMem.Space.Valid, PhysMem.Space.View, List.Valid, List.LinkedAt, Memory.Read32, PageOf, DecodePage, Hit,
           FrameOf, Slot, Wired, T.Without;
      ghost var m, cache := space.View(), Contents();
      space.Shape();
      FetchCurrent(decode, m, cache, phys);
      var x, k := Find(phys);
      if x != null {
        assert PageCurrent(decode, m, cache[k]);
        var p := Update(space, x, k);
        return p.instrs[Slot(phys)];
      }
      var found, _ := space.Query(phys);
      if found {
        var p := Add(space, phys);
        return p.instrs[Slot(phys)];
      }
      var w := space.Read32(phys);
      return decode(w);
    }
  }
}
