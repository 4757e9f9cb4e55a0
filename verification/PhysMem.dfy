/**
 Physical memory as it is implemented: areas with their own data, and a
 two-level frame table that finds the frame of an address.  Every operation is
 proved to be the operation of `Memory` on the flat view of the table.
*/
module PhysMem {
  import opened Options
  import opened Memory

  const TABLE: nat := 4096

  class Area {
    const start: nat
    const count: nat
    const writable: bool
    const data: array<bv8>

    predicate Fits() { 0 < count && start + count <= FRAMES && data.Length == count * FRAME_SIZE }

    predicate Covers(frame: nat) { start <= frame < start + count }

    constructor (start: nat, count: nat, writable: bool, data: array<bv8>)
      ensures this.start == start && this.count == count && this.writable == writable && this.data == data
    {
      this.start, this.count, this.writable, this.data := start, count, writable, data;
    }
  }

  /** A frame descriptor: the area, the displacement of the frame's data in it, and the decode flag. */
  datatype Frame = Frame(area: Area, offset: nat, valid: bool)

  /** A second-level table, absent until something in its range is wired. */
  datatype Ftl1 = Absent | Table(frames: seq<Option<Frame>>)

  // ---------- what a frame table stands for ----------

  type Frames = map<nat, Frame>
  type Stores = map<array<bv8>, seq<bv8>>

  ghost predicate Inside(f: Frame, ds: Stores) { f.area.data in ds && f.offset + FRAME_SIZE <= |ds[f.area.data]| }

  ghost predicate Separate(f: Frame, g: Frame) {
    f.area.data != g.area.data || f.offset + FRAME_SIZE <= g.offset || g.offset + FRAME_SIZE <= f.offset
  }

  /** Frames lie inside the data of their area, and no two frames share data. */
  ghost predicate Sound(fs: Frames, ds: Stores) {
    && (forall n :: n in fs ==> n < FRAMES && Inside(fs[n], ds))
    && (forall n, k :: n in fs && k in fs && n != k ==> Separate(fs[n], fs[k]))
  }

  ghost function Cell(fs: Frames, ds: Stores, a: nat): bv8
    requires Sound(fs, ds) && a / FRAME_SIZE in fs
  {
    var f := fs[a / FRAME_SIZE];
    assert Inside(f, ds);
    ds[f.area.data][f.offset + a % FRAME_SIZE]
  }

  /** The flat memory. */
  ghost function Flat(fs: Frames, ds: Stores): Mem
    requires Sound(fs, ds)
  {
    Mem(map a: nat | a < SPACE && a / FRAME_SIZE in fs :: Cell(fs, ds, a),
        set n | n in fs && !fs[n].area.writable,
        set n | n in fs && fs[n].valid)
  }

  lemma FlatWellFormed(fs: Frames, ds: Stores)
    requires Sound(fs, ds)
    ensures WellFormed(Flat(fs, ds))
  {}

  // ---------- accesses ----------

  lemma Indices(addr: nat)
    ensures FrameOf(addr) < FRAMES
    ensures FrameOf(addr) / TABLE == addr / 0x100_0000 % TABLE
    ensures FrameOf(addr) % TABLE == addr / FRAME_SIZE % TABLE
  {
    var q, c := addr / SPACE, addr % SPACE;
    var n := c / FRAME_SIZE;
    assert addr / FRAME_SIZE == q * FRAMES + n;
    assert addr / 0x100_0000 == q * TABLE + n / TABLE;
    assert q * FRAMES == TABLE * (q * TABLE);
  }

  lemma SameOffset(addr: nat)
    ensures Canon(addr) % FRAME_SIZE == addr % FRAME_SIZE
  {
    assert SPACE == FRAME_SIZE * FRAMES;
    assert addr == FRAME_SIZE * (FRAMES * (addr / SPACE)) + Canon(addr);
  }

  /** Byte `i` of an aligned access: its address, its frame and its place in the frame. */
  lemma ByteOfAccess(addr: nat, n: nat, i: nat)
    requires Width(n) && Aligned(addr, n) && i < n
    ensures addr % FRAME_SIZE + n <= FRAME_SIZE
    ensures Canon(addr + i) == Canon(addr) + i < SPACE
    ensures Canon(addr + i) / FRAME_SIZE == FrameOf(addr)
    ensures Canon(addr + i) % FRAME_SIZE == addr % FRAME_SIZE + i
  {
    AlignedRoom(addr, n);
    AlignedStays(addr, n, i);
    SameOffset(addr);
    FrameDivMod(Canon(addr) + i, Canon(addr) / FRAME_SIZE, Canon(addr) % FRAME_SIZE + i);
  }

  lemma ReadCell(fs: Frames, ds: Stores, addr: nat, n: nat, i: nat)
    requires Sound(fs, ds) && Width(n) && Aligned(addr, n) && i < n
    ensures FrameOf(addr) !in fs ==> ByteAt(Flat(fs, ds), addr + i) == 0xFF
    ensures FrameOf(addr) in fs ==>
              var f := fs[FrameOf(addr)];
              && Inside(f, ds) && f.offset + addr % FRAME_SIZE + n <= |ds[f.area.data]|
              && ByteAt(Flat(fs, ds), addr + i) == ds[f.area.data][f.offset + addr % FRAME_SIZE + i]
  {
    ByteOfAccess(addr, n, i);
  }

  /** `s` with `bs` stored at `at`. */
  function Splice(s: seq<bv8>, at: nat, bs: seq<bv8>): (r: seq<bv8>)
    requires at + |bs| <= |s|
    ensures |r| == |s|
    ensures forall i :: 0 <= i < |s| ==> r[i] == if at <= i < at + |bs| then bs[i - at] else s[i]
  {
    s[..at] + bs + s[at + |bs|..]
  }

  /** The table and the data after an accepted write. */
  ghost function FramesAfter(fs: Frames, addr: nat): Frames
    requires FrameOf(addr) in fs
  {
    fs[FrameOf(addr) := fs[FrameOf(addr)].(valid := false)]
  }

  ghost function StoresAfter(fs: Frames, ds: Stores, addr: nat, bs: seq<bv8>): Stores
    requires FrameOf(addr) in fs && Inside(fs[FrameOf(addr)], ds)
    requires addr % FRAME_SIZE + |bs| <= FRAME_SIZE
  {
    var f := fs[FrameOf(addr)];
    ds[f.area.data := Splice(ds[f.area.data], f.offset + addr % FRAME_SIZE, bs)]
  }

  lemma WriteSound(fs: Frames, ds: Stores, addr: nat, bs: seq<bv8>)
    requires Sound(fs, ds) && FrameOf(addr) in fs && addr % FRAME_SIZE + |bs| <= FRAME_SIZE
    ensures Inside(fs[FrameOf(addr)], ds)
    ensures Sound(FramesAfter(fs, addr), StoresAfter(fs, ds, addr, bs))
  {
    hide FrameOf;
    var fs', ds' := FramesAfter(fs, addr), StoresAfter(fs, ds, addr, bs);
    forall n | n in fs' ensures n < FRAMES && Inside(fs'[n], ds') {
      assert Inside(fs[n], ds);
    }
    forall n, k | n in fs' && k in fs' && n != k ensures Separate(fs'[n], fs'[k]) {
      assert Separate(fs[n], fs[k]);
    }
  }

  /** A write reaches exactly its own bytes, since no other frame shares their data. */
  lemma WriteCell(fs: Frames, ds: Stores, addr: nat, bs: seq<bv8>, a: nat)
    requires Sound(fs, ds) && FrameOf(addr) in fs && Width(|bs|) && Aligned(addr, |bs|)
    requires a < SPACE && a / FRAME_SIZE in fs
    requires addr % FRAME_SIZE + |bs| <= FRAME_SIZE && Inside(fs[FrameOf(addr)], ds)
    requires Sound(FramesAfter(fs, addr), StoresAfter(fs, ds, addr, bs))
    ensures Cell(FramesAfter(fs, addr), StoresAfter(fs, ds, addr, bs), a) ==
            if Canon(addr) <= a < Canon(addr) + |bs| then bs[a - Canon(addr)] else Cell(fs, ds, a)
  {
    ByteOfAccess(addr, |bs|, 0);
    SameOffset(addr);
    var n, k := FrameOf(addr), a / FRAME_SIZE;
    assert Inside(fs[k], ds);
    var base := FRAME_SIZE * n;
    assert Canon(addr) == base + addr % FRAME_SIZE && a == FRAME_SIZE * k + a % FRAME_SIZE;
    if n != k {
      assert Separate(fs[n], fs[k]);
      assert k < n ==> a < base;
      assert k > n ==> a >= base + FRAME_SIZE;
    }
  }

  /** An accepted write of the table is the write of flat memory. */
  lemma FlatWrite(fs: Frames, ds: Stores, addr: nat, bs: seq<bv8>, protected: bool)
    requires Sound(fs, ds) && Width(|bs|) && Aligned(addr, |bs|) && FrameOf(addr) in fs
    requires protected ==> fs[FrameOf(addr)].area.writable
    ensures addr % FRAME_SIZE + |bs| <= FRAME_SIZE && Inside(fs[FrameOf(addr)], ds)
    ensures Sound(FramesAfter(fs, addr), StoresAfter(fs, ds, addr, bs))
    ensures Flat(FramesAfter(fs, addr), StoresAfter(fs, ds, addr, bs)) == WriteBytes(Flat(fs, ds), addr, bs, protected)
  {
    hide FrameOf, Canon, StoresAfter, Cell, Sound, Inside, Flat, WriteBytes;
    ByteOfAccess(addr, |bs|, 0);
    WriteSound(fs, ds, addr, bs);
    FlatAccepts(fs, ds, addr, protected);
    FlatBytes(fs, ds, addr, bs, protected);
    FlatFlags(fs, ds, addr, bs, protected);
  }

  /** The table lets a write through exactly when flat memory does. */
  lemma FlatAccepts(fs: Frames, ds: Stores, addr: nat, protected: bool)
    requires Sound(fs, ds)
    ensures Accepts(Flat(fs, ds), addr, protected) <==>
            FrameOf(addr) in fs && (protected ==> fs[FrameOf(addr)].area.writable)
  {
    hide Cell;
  }

  lemma FlatBytes(fs: Frames, ds: Stores, addr: nat, bs: seq<bv8>, protected: bool)
    requires Sound(fs, ds) && Width(|bs|) && Aligned(addr, |bs|) && FrameOf(addr) in fs
    requires addr % FRAME_SIZE + |bs| <= FRAME_SIZE && Inside(fs[FrameOf(addr)], ds)
    requires Sound(FramesAfter(fs, addr), StoresAfter(fs, ds, addr, bs)) && Accepts(Flat(fs, ds), addr, protected)
    ensures Flat(FramesAfter(fs, addr), StoresAfter(fs, ds, addr, bs)).bytes ==
            WriteBytes(Flat(fs, ds), addr, bs, protected).bytes
  {
    hide StoresAfter, Cell, Sound, Inside, Canon, FrameOf, Accepts;
    var fs', ds' := FramesAfter(fs, addr), StoresAfter(fs, ds, addr, bs);
    var m', w := Flat(fs', ds'), WriteBytes(Flat(fs, ds), addr, bs, protected);
    assert m'.bytes.Keys == w.bytes.Keys;
    forall a | a in w.bytes ensures m'.bytes[a] == w.bytes[a] {
      WriteCell(fs, ds, addr, bs, a);
    }
  }

  lemma FlatFlags(fs: Frames, ds: Stores, addr: nat, bs: seq<bv8>, protected: bool)
    requires Sound(fs, ds) && FrameOf(addr) in fs
    requires addr % FRAME_SIZE + |bs| <= FRAME_SIZE && Inside(fs[FrameOf(addr)], ds)
    requires Sound(FramesAfter(fs, addr), StoresAfter(fs, ds, addr, bs)) && Accepts(Flat(fs, ds), addr, protected)
    ensures Flat(FramesAfter(fs, addr), StoresAfter(fs, ds, addr, bs)).rom ==
            WriteBytes(Flat(fs, ds), addr, bs, protected).rom
    ensures Flat(FramesAfter(fs, addr), StoresAfter(fs, ds, addr, bs)).valid ==
            WriteBytes(Flat(fs, ds), addr, bs, protected).valid
  {
    hide StoresAfter, Cell, Sound, Inside, Canon, FrameOf, Accepts;
  }

  lemma FlatWired(fs: Frames, ds: Stores, addr: nat)
    requires Sound(fs, ds)
    ensures Wired(Flat(fs, ds), addr) <==> FrameOf(addr) in fs
  {
    hide Cell;
  }

  lemma MarkSound(fs: Frames, ds: Stores, n: nat)
    requires Sound(fs, ds) && n in fs
    ensures Sound(fs[n := fs[n].(valid := true)], ds)
  {
    var fs' := fs[n := fs[n].(valid := true)];
    forall k | k in fs' ensures k < FRAMES && Inside(fs'[k], ds) {
      assert Inside(fs[k], ds);
    }
    forall j, k | j in fs' && k in fs' && j != k ensures Separate(fs'[j], fs'[k]) {
      assert Separate(fs[j], fs[k]);
    }
  }

  /** Setting a decode flag changes nothing else. */
  lemma FlatMark(fs: Frames, ds: Stores, n: nat)
    requires Sound(fs, ds) && n in fs
    ensures Sound(fs[n := fs[n].(valid := true)], ds)
    ensures Flat(fs[n := fs[n].(valid := true)], ds) == Flat(fs, ds).(valid := Flat(fs, ds).valid + {n})
  {
    hide Sound, Inside;
    MarkSound(fs, ds, n);
    var fs' := fs[n := fs[n].(valid := true)];
    var m, m' := Flat(fs, ds), Flat(fs', ds);
    assert m'.bytes.Keys == m.bytes.Keys;
    forall a | a in m.bytes ensures m'.bytes[a] == m.bytes[a] {
      assert Cell(fs', ds, a) == Cell(fs, ds, a);
    }
    assert m'.rom == m.rom;
    assert m'.valid == m.valid + {n};
  }

  // ---------- wiring ----------

  /** Where an area puts a frame it covers. */
  function Placed(area: Area, frame: nat): Frame
    requires area.Covers(frame)
  {
    Frame(area, (frame - area.start) * FRAME_SIZE, false)
  }

  /** The frames after wiring `pfn` frames of an area. */
  ghost function WiredTo(fs: Frames, area: Area, pfn: nat): Frames
    requires pfn <= area.count
  {
    if pfn == 0 then fs
    else WiredTo(fs, area, pfn - 1)[area.start + pfn - 1 := Placed(area, area.start + pfn - 1)]
  }

  lemma {:induction false} WiredAt(fs: Frames, area: Area, pfn: nat, n: nat)
    requires pfn <= area.count
    ensures n in WiredTo(fs, area, pfn) <==> n in fs || area.start <= n < area.start + pfn
    ensures n in WiredTo(fs, area, pfn) ==>
              WiredTo(fs, area, pfn)[n] == if area.start <= n < area.start + pfn then Placed(area, n) else fs[n]
  {
    if pfn > 0 {
      WiredAt(fs, area, pfn - 1, n);
    }
  }

  lemma WireSound(fs: Frames, ds: Stores, area: Area, s: seq<bv8>)
    requires Sound(fs, ds) && area.Fits() && area.data !in ds && |s| == area.data.Length
    ensures Sound(WiredTo(fs, area, area.count), ds[area.data := s])
  {
    var fs', ds' := WiredTo(fs, area, area.count), ds[area.data := s];
    forall n | n in fs' ensures n < FRAMES && Inside(fs'[n], ds') {
      WiredAt(fs, area, area.count, n);
      if area.Covers(n) {
        Steps(area.count, n - area.start);
      } else {
        assert Inside(fs[n], ds);
      }
    }
    forall n, k | n in fs' && k in fs' && n != k ensures Separate(fs'[n], fs'[k]) {
      WiredAt(fs, area, area.count, n);
      WiredAt(fs, area, area.count, k);
      if area.Covers(n) && area.Covers(k) {
        assert n < k ==> (n - area.start) * FRAME_SIZE + FRAME_SIZE <= (k - area.start) * FRAME_SIZE;
        assert k < n ==> (k - area.start) * FRAME_SIZE + FRAME_SIZE <= (n - area.start) * FRAME_SIZE;
      } else if !area.Covers(n) && !area.Covers(k) {
        assert Separate(fs[n], fs[k]);
      } else {
        var other := if area.Covers(n) then k else n;
        assert Inside(fs[other], ds);
      }
    }
  }

  lemma Steps(count: nat, i: nat)
    requires i < count
    ensures i * FRAME_SIZE + FRAME_SIZE <= count * FRAME_SIZE
  {}

  /** All wires of a run, the latest last. */
  ghost function WiredAll(areas: seq<Area>): Frames {
    if areas == [] then map[]
    else WiredTo(WiredAll(areas[..|areas| - 1]), areas[|areas| - 1], areas[|areas| - 1].count)
  }

  /** The last area that covers frame `n`, as an index, or -1. */
  function LastCovering(areas: seq<Area>, n: nat): (i: int)
    ensures -1 <= i < |areas|
    ensures i >= 0 ==> areas[i].Covers(n)
    ensures forall j :: i < j < |areas| ==> !areas[j].Covers(n)
  {
    if areas == [] then -1
    else if areas[|areas| - 1].Covers(n) then |areas| - 1
    else LastCovering(areas[..|areas| - 1], n)
  }

  /** After any sequence of wires, a lookup finds the last area wired over the frame, at the right displacement. */
  lemma {:induction false} LookupFindsLastWired(areas: seq<Area>, n: nat)
    ensures var i := LastCovering(areas, n);
            && (n in WiredAll(areas) <==> i >= 0)
            && (i >= 0 ==> WiredAll(areas)[n] == Placed(areas[i], n))
  {
    if areas != [] {
      LookupFindsLastWired(areas[..|areas| - 1], n);
      WiredAt(WiredAll(areas[..|areas| - 1]), areas[|areas| - 1], areas[|areas| - 1].count, n);
    }
  }

  /** The same frames in the same places; decode flags may differ. */
  ghost predicate SamePlaces(fs: Frames, gs: Frames) {
    && fs.Keys == gs.Keys
    && forall n :: n in fs ==> fs[n].area == gs[n].area && fs[n].offset == gs[n].offset
  }

  lemma WireKeepsPlaces(fs: Frames, areas: seq<Area>, area: Area)
    requires SamePlaces(fs, WiredAll(areas))
    ensures SamePlaces(WiredTo(fs, area, area.count), WiredAll(areas + [area]))
  {
    var gs := WiredAll(areas);
    var fs', gs' := WiredTo(fs, area, area.count), WiredAll(areas + [area]);
    assert (areas + [area])[..|areas|] == areas;
    assert gs' == WiredTo(gs, area, area.count);
    forall n: nat ensures n in fs' <==> n in gs' {
      WiredAt(fs, area, area.count, n);
      WiredAt(gs, area, area.count, n);
    }
    forall n | n in fs' ensures fs'[n].area == gs'[n].area && fs'[n].offset == gs'[n].offset {
      WiredAt(fs, area, area.count, n);
      WiredAt(gs, area, area.count, n);
    }
  }

  // ---------- the implementation ----------

  class Space {
    /** The first level; a slot is replaced when a table below it changes. */
    var ftl0: seq<Ftl1>
    ghost var stores: set<array<bv8>>
    /** The areas wired so far. */
    ghost var wired: seq<Area>

    ghost predicate Shaped()
      reads this`ftl0
    {
      && |ftl0| == TABLE
      && forall i :: 0 <= i < TABLE ==> ftl0[i].Table? ==> |ftl0[i].frames| == TABLE
    }

    ghost function At(n: nat): Option<Frame>
      requires Shaped() && n < FRAMES
      reads this`ftl0
    {
      var t := ftl0[n / TABLE];
      if t.Absent? then None else t.frames[n % TABLE]
    }

    /** The frames the two levels hold. */
    ghost function Table(): Frames
      requires Shaped()
      reads this`ftl0
    {
      map n: nat | n < FRAMES && At(n).Some? :: At(n).value
    }

    /** The data of the areas. */
    ghost function Data(): Stores
      reads this, stores
    {
      map a | a in stores :: a[..]
    }

    ghost predicate Valid()
      reads this, stores
    {
      Shaped() && Sound(Table(), Data()) && SamePlaces(Table(), WiredAll(wired))
    }

    /** The flat memory this table stands for. */
    ghost function View(): Mem
      requires Valid()
      reads this, stores
    {
      Flat(Table(), Data())
    }

    constructor ()
      ensures Valid() && stores == {} && wired == []
    {
      ftl0 := seq(TABLE, _ => Absent);
      stores, wired := {}, [];
    }

    /** Set one slot, creating its table if need be. */
    method Put(n: nat, f: Frame)
      requires Shaped() && n < FRAMES
      modifies this`ftl0
      ensures Shaped() && Table() == old(Table())[n := f]
      ensures Data() == old(Data())
    {
      var i, j := n / TABLE, n % TABLE;
      if ftl0[i].Absent? {
        ftl0 := ftl0[i := Ftl1.Table(seq(TABLE, _ => None))];
      }
      ftl0 := ftl0[i := Ftl1.Table(ftl0[i].frames[j := Some(f)])];
      forall k: nat | k < FRAMES ensures At(k) == if k == n then Some(f) else old(At(k)) {
        assert k == k / TABLE * TABLE + k % TABLE && n == i * TABLE + j;
      }
    }

    /** `physmem_wire` */
    method Wire(area: Area)
      requires Valid() && area.Fits() && area.data !in stores
      modifies this
      ensures Valid() && stores == old(stores) + {area.data} && wired == old(wired) + [area]
      ensures Table() == WiredTo(old(Table()), area, area.count)
      ensures Data() == old(Data())[area.data := area.data[..]]
    {
      hide Sound, Table, SamePlaces, WiredAll;
      var pfn := 0;
      while pfn < area.count
        invariant 0 <= pfn <= area.count && Shaped()
        invariant Table() == WiredTo(old(Table()), area, pfn)
        invariant Data() == old(Data())
        invariant stores == old(stores) && wired == old(wired)
      {
        Put(area.start + pfn, Frame(area, pfn * FRAME_SIZE, false));
        pfn := pfn + 1;
      }
      WireSound(old(Table()), old(Data()), area, area.data[..]);
      WireKeepsPlaces(old(Table()), wired, area);
      stores, wired := stores + {area.data}, wired + [area];
      assert Data() == old(Data())[area.data := area.data[..]];
    }

    /** `physmem_find_frame` */
    method FindFrame(addr: nat) returns (f: Option<Frame>)
      requires Valid()
      ensures f == if FrameOf(addr) in Table() then Some(Table()[FrameOf(addr)]) else None
      ensures var i := LastCovering(wired, FrameOf(addr));
              if i < 0 then f == None
              else f.Some? && f.value.area == wired[i] &&
                   f.value.offset == (FrameOf(addr) - wired[i].start) * FRAME_SIZE
    {
      hide Sound, WiredAll, FrameOf;
      LookupFindsLastWired(wired, FrameOf(addr));
      var i, j := addr / 0x100_0000 % TABLE, addr / FRAME_SIZE % TABLE;
      Indices(addr);
      f := if ftl0[i].Absent? then None else ftl0[i].frames[j];
      assert f == At(FrameOf(addr));
    }

    /** `physmem_read8` to `physmem_read64`, lowest byte first; an address without a frame reads as all ones. */
    method Read(addr: nat, n: nat) returns (bs: seq<bv8>)
      requires Valid() && Width(n) && Aligned(addr, n)
      ensures bs == ReadBytes(View(), addr, n)
    {
      hide Flat, ByteAt, Sound, FrameOf, Table, SamePlaces;
      var f := FindFrame(addr);
      ReadCell(Table(), Data(), addr, n, 0);
      if f.None? {
        bs := seq(n, _ => 0xFF);
      } else {
        var at := f.value.offset + addr % FRAME_SIZE;
        bs := f.value.area.data[at..at + n];
      }
      forall i | 0 <= i < n ensures bs[i] == ReadBytes(View(), addr, n)[i] {
        ReadCell(Table(), Data(), addr, n, i);
      }
    }

    /** Store bytes in the data of an area. */
    method Store(data: array<bv8>, at: nat, bs: seq<bv8>)
      requires data in stores && at + |bs| <= data.Length
      modifies data
      ensures Data() == old(Data())[data := Splice(old(data[..]), at, bs)]
      ensures old(Shaped()) ==> Shaped() && Table() == old(Table())
    {
      var i := 0;
      while i < |bs|
        invariant 0 <= i <= |bs|
        invariant data[..] == Splice(old(data[..]), at, bs[..i])
      {
        data[at + i] := bs[i];
        i := i + 1;
      }
      assert bs[..|bs|] == bs;
    }

    /**
     `physmem_write8` to `physmem_write64`: a protected write to a read-only area is refused;
     an accepted one marks the frame's decoded instructions as stale.
    */
    method Write(addr: nat, bs: seq<bv8>, protected: bool) returns (ok: bool)
      requires Valid() && Width(|bs|) && Aligned(addr, |bs|)
      modifies this`ftl0, stores
      ensures Valid() && View() == WriteBytes(old(View()), addr, bs, protected)
      ensures ok == Accepts(old(View()), addr, protected)
    {
      hide Flat, WriteBytes, Sound, FrameOf, Table, Accepts, SamePlaces;
      var f := FindFrame(addr);
      FlatAccepts(Table(), Data(), addr, protected);
      if f.None? || (!f.value.area.writable && protected) {
        Refused(View(), addr, bs, protected);
        return false;
      }
      FlatWrite(Table(), Data(), addr, bs, protected);
      Indices(addr);
      MarkKeepsPlaces(Table(), WiredAll(wired), FrameOf(addr), false);
      Put(FrameOf(addr), f.value.(valid := false));
      Store(f.value.area.data, f.value.offset + addr % FRAME_SIZE, bs);
      ok := true;
    }

    /** A write is let through exactly when there is a frame, writable if the write is protected. */
    lemma Lets(addr: nat, protected: bool)
      requires Valid()
      ensures Accepts(View(), addr, protected) <==>
              FrameOf(addr) in Table() && (protected ==> Table()[FrameOf(addr)].area.writable)
    {
      hide Flat, Sound, FrameOf, Table, Accepts, SamePlaces;
      FlatAccepts(Table(), Data(), addr, protected);
    }

    lemma Shape()
      requires Valid()
      ensures WellFormed(View())
    {
      hide Table, Data, SamePlaces;
      FlatWellFormed(Table(), Data());
    }

    /** Is there a frame, and is its decode flag set? */
    method Query(addr: nat) returns (found: bool, valid: bool)
      requires Valid()
      ensures found == Wired(View(), addr)
      ensures found ==> valid == (FrameOf(addr) in View().valid)
    {
      hide Sound, FrameOf, Table, SamePlaces, Cell;
      FlatWired(Table(), Data(), addr);
      var f := FindFrame(addr);
      found, valid := f.Some?, f.Some? && f.value.valid;
    }

    /** Set the decode flag of a frame, as a processor does once it has decoded the frame. */
    method SetValid(addr: nat)
      requires Valid() && Wired(View(), addr)
      modifies this`ftl0
      ensures Valid() && View() == old(View()).(valid := old(View()).valid + {FrameOf(addr)})
    {
      hide Flat, Sound, FrameOf, Table, SamePlaces;
      FlatWired(Table(), Data(), addr);
      var f := FindFrame(addr);
      Indices(addr);
      MarkKeepsPlaces(Table(), WiredAll(wired), FrameOf(addr), true);
      FlatMark(Table(), Data(), FrameOf(addr));
      Put(FrameOf(addr), f.value.(valid := true));
    }

    static lemma MarkKeepsPlaces(fs: Frames, gs: Frames, n: nat, valid: bool)
      requires n in fs && SamePlaces(fs, gs)
      ensures SamePlaces(fs[n := fs[n].(valid := valid)], gs)
    {}

    /** 32-bit accesses. */
    method Read32(addr: nat) returns (w: bv32)
      requires Valid() && Aligned(addr, 4)
      ensures w == Memory.Read32(View(), addr)
    {
      hide Valid, View, Join32;
      var bs := Read(addr, 4);
      w := Join32(bs[0], bs[1], bs[2], bs[3]);
    }

    method Write32(addr: nat, w: bv32, protected: bool) returns (ok: bool)
      requires Valid() && Aligned(addr, 4)
      modifies this`ftl0, stores
      ensures Valid() && View() == Memory.Write32(old(View()), addr, w, protected)
      ensures ok == Accepts(old(View()), addr, protected)
    {
      hide Valid, View, WriteBytes, Accepts, Split32;
      ok := Write(addr, Split32(w), protected);
    }

    static lemma Refused(m: Mem, addr: nat, bs: seq<bv8>, protected: bool)
      requires !Accepts(m, addr, protected)
      ensures WriteBytes(m, addr, bs, protected) == m
    {}
  }
}
