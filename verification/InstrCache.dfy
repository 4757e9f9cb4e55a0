/**
 The cache of decoded instructions.  A page of instructions is decoded once and
 reused as long as the `valid` flag of its frame is set; every write to memory
 clears the flag of the frame it hits.  One family of processors uses the cache.
*/
module InstrCache {
  import opened Memory
  import T = Tlb

  const WORDS: nat := 1024

  /** A cached page: its base address and its decoded instructions. */
  datatype Page<I> = Page(addr: nat, instrs: seq<I>)

  function PageOf(phys: nat): nat { phys / FRAME_SIZE * FRAME_SIZE }

  function DecodePage<I>(decode: bv32 -> I, m: Mem, base: nat): (r: seq<I>)
    ensures |r| == WORDS
  {
    seq(WORDS, i requires 0 <= i < WORDS => decode(Read32(m, base + 4 * i)))
  }

  /** Index of the page of `phys`, or the length. */
  function Hit<I>(cache: seq<Page<I>>, phys: nat): (k: nat)
    ensures k <= |cache|
    ensures k < |cache| ==> cache[k].addr == PageOf(phys)
    ensures forall i :: 0 <= i < k ==> cache[i].addr != PageOf(phys)
  {
    if cache == [] then 0 else if cache[0].addr == PageOf(phys) then 0 else Hit(cache[1..], phys) + 1
  }

  datatype Fetched<I> = Fetched(instr: I, mem: Mem, cache: seq<Page<I>>)

  /** Where in its page the instruction is. */
  function Slot(phys: nat): (i: nat)
    ensures i < WORDS
  {
    phys % FRAME_SIZE / 4
  }

  predicate Full<I>(cache: seq<Page<I>>) { forall i :: 0 <= i < |cache| ==> |cache[i].instrs| == WORDS }

  function MarkValid(m: Mem, addr: nat): Mem { m.(valid := m.valid + {FrameOf(addr)}) }

  /** `update_cache_item` */
  function Refresh<I>(decode: bv32 -> I, m: Mem, p: Page<I>): Page<I> {
    if FrameOf(p.addr) in m.valid then p else Page(p.addr, DecodePage(decode, m, p.addr))
  }

  /** `fetch_instr` */
  function Fetch<I>(decode: bv32 -> I, m: Mem, cache: seq<Page<I>>, phys: nat): Fetched<I>
    requires Full(cache)
  {
    var k := Hit(cache, phys);
    if k < |cache| then
      var p := Refresh(decode, m, cache[k]);
      Fetched(p.instrs[Slot(phys)], MarkValid(m, PageOf(phys)), [p] + T.Without(cache, k))
    else if Wired(m, phys) then
      var p := Page(PageOf(phys), DecodePage(decode, m, PageOf(phys)));
      Fetched(p.instrs[Slot(phys)], MarkValid(m, phys), [p] + cache)
    else
      Fetched(decode(Read32(m, phys)), m, cache)
  }

  // ---------- coherence ----------

  ghost predicate PageCurrent<I>(decode: bv32 -> I, m: Mem, p: Page<I>) {
    && p.addr % FRAME_SIZE == 0 && p.addr < SPACE && Wired(m, p.addr)
    && |p.instrs| == WORDS
    && (FrameOf(p.addr) in m.valid ==> p.instrs == DecodePage(decode, m, p.addr))
  }

  /** Cached pages have unique addresses, and a page whose flag is set is the decoding of what memory holds now. */
  ghost predicate Current<I>(decode: bv32 -> I, m: Mem, cache: seq<Page<I>>) {
    && (forall i :: 0 <= i < |cache| ==> PageCurrent(decode, m, cache[i]))
    && (forall i, j :: 0 <= i < j < |cache| ==> cache[i].addr != cache[j].addr)
  }

  /** A page-aligned address is determined by its frame. */
  lemma PageFrame(a: nat)
    requires a % FRAME_SIZE == 0 && a < SPACE
    ensures a == FrameOf(a) * FRAME_SIZE
  {}

  lemma PageOfPhys(phys: nat)
    requires phys < SPACE && phys % 4 == 0
    ensures PageOf(phys) % FRAME_SIZE == 0 && PageOf(phys) < SPACE && PageOf(phys) + 4 * Slot(phys) == phys
    ensures FrameOf(PageOf(phys)) == FrameOf(phys)
  {
    var q, r := phys / FRAME_SIZE, phys % FRAME_SIZE;
    assert phys == FRAME_SIZE * q + r;
    InFrame(q, r);
    assert r % 4 == 0 by {
      assert phys == 4 * (phys / 4);
      assert r == 4 * (phys / 4 - 1024 * q);
    }
    assert r == 4 * (r / 4);
  }

  lemma InFrame(q: nat, r: nat)
    requires FRAME_SIZE * q + r < SPACE && r < FRAME_SIZE
    ensures FrameOf(FRAME_SIZE * q) == q && FrameOf(FRAME_SIZE * q + r) == q && FRAME_SIZE * q % FRAME_SIZE == 0
  {
    FrameDivMod(FRAME_SIZE * q + r, q, r);
    FrameDivMod(FRAME_SIZE * q, q, 0);
  }

  /** Memory comes in whole frames, so a frame is wired at its base if it is wired anywhere. */
  lemma WiredAtBase(m: Mem, phys: nat)
    requires WellFormed(m) && phys < SPACE && phys % 4 == 0
    ensures Wired(m, phys) <==> Wired(m, PageOf(phys))
  {
    PageOfPhys(phys);
  }

  /** A fetch returns the decoding of the word memory holds now, and keeps the cache current. */
  lemma FetchCurrent<I>(decode: bv32 -> I, m: Mem, cache: seq<Page<I>>, phys: nat)
    requires WellFormed(m) && Current(decode, m, cache) && phys < SPACE && phys % 4 == 0
    ensures Full(cache)
    ensures var f := Fetch(decode, m, cache, phys);
            f.instr == decode(Read32(m, phys)) && f.mem.bytes == m.bytes && f.mem.rom == m.rom
    ensures var f := Fetch(decode, m, cache, phys);
            Current(decode, f.mem, f.cache)
  {
    hide Read32, WellFormed, FrameOf;
    assert forall i :: 0 <= i < |cache| ==> PageCurrent(decode, m, cache[i]);
    PageOfPhys(phys);
    WiredAtBase(m, phys);
    var f := Fetch(decode, m, cache, phys);
    MarkKeepsDecoding(decode, m, PageOf(phys));
    var k := Hit(cache, phys);
    if k < |cache| {
      var p := Refresh(decode, m, cache[k]);
      assert p.instrs == DecodePage(decode, m, PageOf(phys));
      OthersCurrent(decode, m, T.Without(cache, k), PageOf(phys));
    } else if Wired(m, phys) {
      OthersCurrent(decode, m, cache, PageOf(phys));
    }
  }

  lemma MarkKeepsDecoding<I>(decode: bv32 -> I, m: Mem, addr: nat)
    ensures forall base: nat :: DecodePage(decode, MarkValid(m, addr), base) == DecodePage(decode, m, base)
    ensures forall a: nat :: Wired(MarkValid(m, addr), a) == Wired(m, a)
  {
    hide FrameOf, Join32, Canon;
    forall base: nat ensures DecodePage(decode, MarkValid(m, addr), base) == DecodePage(decode, m, base) {
      forall i | 0 <= i < WORDS
        ensures DecodePage(decode, MarkValid(m, addr), base)[i] == DecodePage(decode, m, base)[i]
      {
      }
    }
  }

  /** Setting the flag of one page says nothing about the others. */
  lemma OthersCurrent<I>(decode: bv32 -> I, m: Mem, cache: seq<Page<I>>, addr: nat)
    requires Current(decode, m, cache) && addr % FRAME_SIZE == 0 && addr < SPACE
    requires forall i :: 0 <= i < |cache| ==> cache[i].addr != addr
    ensures Current(decode, MarkValid(m, addr), cache)
  {
    MarkKeepsDecoding(decode, m, addr);
    hide DecodePage, Wired;
    forall i | 0 <= i < |cache| ensures PageCurrent(decode, MarkValid(m, addr), cache[i]) {
      assert PageCurrent(decode, m, cache[i]);
      PageFrame(cache[i].addr);
      PageFrame(addr);
    }
  }

  // ---------- writes ----------

  /** A byte outside the frame an aligned write goes to. */
  lemma OtherFrameByte(m: Mem, addr: nat, bs: seq<bv8>, protected: bool, x: nat)
    requires Width(|bs|) && Aligned(addr, |bs|) && FrameOf(x) != FrameOf(addr)
    ensures ByteAt(WriteBytes(m, addr, bs, protected), x) == ByteAt(m, x)
  {
    WriteByteAt(m, addr, bs, protected, x);
    hide WriteBytes, ByteAt;
    AlignedRoom(addr, |bs|);
    if Canon(addr) <= Canon(x) < Canon(addr) + |bs| {
      var i := Canon(x) - Canon(addr);
      FrameDivMod(Canon(addr) + i, Canon(addr) / FRAME_SIZE, Canon(addr) % FRAME_SIZE + i);
      assert false;
    }
  }

  lemma ByteInPage(base: nat, i: nat)
    requires base % FRAME_SIZE == 0 && base < SPACE && i < FRAME_SIZE
    ensures FrameOf(base + i) == FrameOf(base)
  {
    PageFrame(base);
    InFrame(FrameOf(base), i);
  }

  lemma OtherFrameWord(m: Mem, addr: nat, bs: seq<bv8>, protected: bool, base: nat, i: nat)
    requires Width(|bs|) && Aligned(addr, |bs|) && FrameOf(base) != FrameOf(addr)
    requires base % FRAME_SIZE == 0 && base < SPACE && i < WORDS
    ensures Read32(WriteBytes(m, addr, bs, protected), base + 4 * i) == Read32(m, base + 4 * i)
  {
    hide WriteBytes, ByteAt, Join32, FrameOf;
    var a := base + 4 * i;
    ByteInPage(base, 4 * i);
    ByteInPage(base, 4 * i + 1);
    ByteInPage(base, 4 * i + 2);
    ByteInPage(base, 4 * i + 3);
    OtherFrameByte(m, addr, bs, protected, a);
    OtherFrameByte(m, addr, bs, protected, a + 1);
    OtherFrameByte(m, addr, bs, protected, a + 2);
    OtherFrameByte(m, addr, bs, protected, a + 3);
  }

  lemma OtherFrameDecoding<I>(decode: bv32 -> I, m: Mem, addr: nat, bs: seq<bv8>, protected: bool, base: nat)
    requires Width(|bs|) && Aligned(addr, |bs|) && FrameOf(base) != FrameOf(addr)
    requires base % FRAME_SIZE == 0 && base < SPACE
    ensures DecodePage(decode, WriteBytes(m, addr, bs, protected), base) == DecodePage(decode, m, base)
  {
    hide WriteBytes, Read32, FrameOf;
    var m' := WriteBytes(m, addr, bs, protected);
    forall i | 0 <= i < WORDS ensures DecodePage(decode, m', base)[i] == DecodePage(decode, m, base)[i] {
      OtherFrameWord(m, addr, bs, protected, base, i);
    }
  }

  /** A write by anyone, processor or device, leaves the cache current: pages it hits lose their flag. */
  lemma WriteKeepsCurrent<I>(decode: bv32 -> I, m: Mem, cache: seq<Page<I>>, addr: nat, bs: seq<bv8>, protected: bool)
    requires Current(decode, m, cache) && Width(|bs|) && Aligned(addr, |bs|)
    ensures Current(decode, WriteBytes(m, addr, bs, protected), cache)
  {
    var m' := WriteBytes(m, addr, bs, protected);
    assert m'.valid == if Accepts(m, addr, protected) then m.valid - {FrameOf(addr)} else m.valid;
    assert m'.bytes.Keys == m.bytes.Keys && (!Accepts(m, addr, protected) ==> m' == m);
    hide WriteBytes, FrameOf, DecodePage, Accepts;
    forall i | 0 <= i < |cache| ensures PageCurrent(decode, m', cache[i]) {
      assert PageCurrent(decode, m, cache[i]);
      if Accepts(m, addr, protected) && FrameOf(cache[i].addr) != FrameOf(addr) {
        OtherFrameDecoding(decode, m, addr, bs, protected, cache[i].addr);
      }
    }
  }

  predicate InsideFrame(n: nat, a: nat) { a / FRAME_SIZE == n }

  /** Wiring a frame gives it new contents and clears its flag. */
  function WireFrame(m: Mem, n: nat, data: seq<bv8>, writable: bool): Mem
    requires n < FRAMES && |data| == FRAME_SIZE
  {
    Mem(map a: nat | a < SPACE && (a in m.bytes || InsideFrame(n, a)) ::
          if InsideFrame(n, a) then data[a % FRAME_SIZE] else m.bytes[a],
        if writable then m.rom - {n} else m.rom + {n},
        m.valid - {n})
  }

  lemma WireKeepsShape(m: Mem, n: nat, data: seq<bv8>, writable: bool)
    requires WellFormed(m) && n < FRAMES && |data| == FRAME_SIZE
    ensures WellFormed(WireFrame(m, n, data, writable))
  {
    var m' := WireFrame(m, n, data, writable);
    forall a | a in m'.bytes ensures a < SPACE {}
    forall a, b: nat | a in m'.bytes && b < SPACE && a / FRAME_SIZE == b / FRAME_SIZE ensures b in m'.bytes {
      if a / FRAME_SIZE != n {
        assert a in m.bytes;
      }
    }
  }

  lemma WireOtherByte(m: Mem, n: nat, data: seq<bv8>, writable: bool, x: nat)
    requires n < FRAMES && |data| == FRAME_SIZE && FrameOf(x) != n
    ensures ByteAt(WireFrame(m, n, data, writable), x) == ByteAt(m, x)
  {}

  lemma WireOtherWord(m: Mem, n: nat, data: seq<bv8>, writable: bool, base: nat, i: nat)
    requires n < FRAMES && |data| == FRAME_SIZE && FrameOf(base) != n
    requires base % FRAME_SIZE == 0 && base < SPACE && i < WORDS
    ensures Read32(WireFrame(m, n, data, writable), base + 4 * i) == Read32(m, base + 4 * i)
  {
    hide WireFrame, ByteAt, Join32, FrameOf;
    var a := base + 4 * i;
    ByteInPage(base, 4 * i);
    ByteInPage(base, 4 * i + 1);
    ByteInPage(base, 4 * i + 2);
    ByteInPage(base, 4 * i + 3);
    WireOtherByte(m, n, data, writable, a);
    WireOtherByte(m, n, data, writable, a + 1);
    WireOtherByte(m, n, data, writable, a + 2);
    WireOtherByte(m, n, data, writable, a + 3);
  }

  lemma WireKeepsCurrent<I>(decode: bv32 -> I, m: Mem, cache: seq<Page<I>>, n: nat, data: seq<bv8>, writable: bool)
    requires Current(decode, m, cache) && n < FRAMES && |data| == FRAME_SIZE
    ensures Current(decode, WireFrame(m, n, data, writable), cache)
  {
    var m' := WireFrame(m, n, data, writable);
    assert m'.valid == m.valid - {n} && forall a :: a in m.bytes && a < SPACE ==> a in m'.bytes;
    hide WireFrame, FrameOf, Read32;
    forall i | 0 <= i < |cache| ensures PageCurrent(decode, m', cache[i]) {
      var p := cache[i];
      assert PageCurrent(decode, m, p);
      if FrameOf(p.addr) != n {
        forall j | 0 <= j < WORDS ensures DecodePage(decode, m', p.addr)[j] == DecodePage(decode, m, p.addr)[j] {
          WireOtherWord(m, n, data, writable, p.addr, j);
        }
        assert DecodePage(decode, m', p.addr) == DecodePage(decode, m, p.addr);
      }
    }
  }

  // ---------- whole runs ----------

  datatype Event =
    | Run(phys: nat)
    | Write(addr: nat, bytes: seq<bv8>, protected: bool)
    | Wire(frame: nat, data: seq<bv8>, writable: bool)
    | Forget

  /** Accesses are naturally aligned and physical addresses have 36 bits. */
  predicate Proper(ev: Event) {
    match ev
    case Run(phys) => phys < SPACE && phys % 4 == 0
    case Write(addr, bytes, _) => Width(|bytes|) && Aligned(addr, |bytes|)
    case Wire(n, data, _) => n < FRAMES && |data| == FRAME_SIZE
    case Forget => true
  }

  datatype State<I> = State(mem: Mem, cache: seq<Page<I>>)

  ghost predicate Good<I>(decode: bv32 -> I, s: State<I>) { WellFormed(s.mem) && Current(decode, s.mem, s.cache) }

  /** What is executed, and the state after; `Forget` is the cleanup when a processor goes away. */
  function Step<I>(decode: bv32 -> I, s: State<I>, ev: Event): (State<I>, seq<I>)
    requires Full(s.cache) && Proper(ev)
  {
    match ev
    case Run(phys) => var f := Fetch(decode, s.mem, s.cache, phys); (State(f.mem, f.cache), [f.instr])
    case Write(addr, bytes, protected) => (s.(mem := WriteBytes(s.mem, addr, bytes, protected)), [])
    case Wire(n, data, writable) => (s.(mem := WireFrame(s.mem, n, data, writable)), [])
    case Forget => (s.(cache := []), [])
  }

  /** The same run without a cache: every instruction is decoded from memory when it is executed. */
  function Decoded<I>(decode: bv32 -> I, m: Mem, ev: Event): (Mem, seq<I>)
    requires Proper(ev)
  {
    match ev
    case Run(phys) => (m, [decode(Read32(m, phys))])
    case Write(addr, bytes, protected) => (WriteBytes(m, addr, bytes, protected), [])
    case Wire(n, data, writable) => (WireFrame(m, n, data, writable), [])
    case Forget => (m, [])
  }

  lemma StepCurrent<I>(decode: bv32 -> I, s: State<I>, ev: Event)
    requires Good(decode, s) && Proper(ev)
    ensures Full(s.cache) && Good(decode, Step(decode, s, ev).0)
    ensures var (s', out) := Step(decode, s, ev);
            var (m', ref) := Decoded(decode, s.mem, ev);
            out == ref && s'.mem.bytes == m'.bytes && s'.mem.rom == m'.rom
  {
    assert forall i :: 0 <= i < |s.cache| ==> PageCurrent(decode, s.mem, s.cache[i]);
    hide WriteBytes, WireFrame, Fetch, Read32;
    match ev
    case Run(phys) =>
      FetchCurrent(decode, s.mem, s.cache, phys);
    case Write(addr, bytes, protected) =>
      hide Current, WellFormed;
      WriteKeepsCurrent(decode, s.mem, s.cache, addr, bytes, protected);
      WriteKeepsShape(s.mem, addr, bytes, protected);
    case Wire(n, data, writable) =>
      hide Current, WellFormed;
      WireKeepsCurrent(decode, s.mem, s.cache, n, data, writable);
      WireKeepsShape(s.mem, n, data, writable);
    case Forget =>
  }

  ghost function Trace<I>(decode: bv32 -> I, s: State<I>, evs: seq<Event>): seq<I>
    requires Good(decode, s) && forall i :: 0 <= i < |evs| ==> Proper(evs[i])
    decreases |evs|
  {
    if evs == [] then [] else
      StepCurrent(decode, s, evs[0]);
      var (s', out) := Step(decode, s, evs[0]);
      out + Trace(decode, s', evs[1..])
  }

  ghost function DecodedTrace<I>(decode: bv32 -> I, m: Mem, evs: seq<Event>): seq<I>
    requires forall i :: 0 <= i < |evs| ==> Proper(evs[i])
    decreases |evs|
  {
    if evs == [] then [] else
      var (m', out) := Decoded(decode, m, evs[0]);
      out + DecodedTrace(decode, m', evs[1..])
  }

  predicate SameContents(m: Mem, n: Mem) { m.bytes == n.bytes && m.rom == n.rom }

  /** Flags do not influence what memory holds. */
  lemma FlagsIrrelevant<I>(decode: bv32 -> I, m: Mem, n: Mem, ev: Event)
    requires SameContents(m, n) && Proper(ev)
    ensures Decoded(decode, m, ev).1 == Decoded(decode, n, ev).1
    ensures SameContents(Decoded(decode, m, ev).0, Decoded(decode, n, ev).0)
  {
    hide Join32;
  }

  /**
   Coherence over whole runs: for every interleaving of writes and fetches, what is executed is
   what decoding each word at the moment of its execution gives.
  */
  lemma {:induction false} RunCurrent<I>(decode: bv32 -> I, s: State<I>, m: Mem, evs: seq<Event>)
    requires Good(decode, s) && SameContents(s.mem, m) && forall i :: 0 <= i < |evs| ==> Proper(evs[i])
    ensures Trace(decode, s, evs) == DecodedTrace(decode, m, evs)
    decreases |evs|
  {
    hide Good, Step, Decoded, Proper;
    if evs != [] {
      StepCurrent(decode, s, evs[0]);
      FlagsIrrelevant(decode, s.mem, m, evs[0]);
      RunCurrent(decode, Step(decode, s, evs[0]).0, Decoded(decode, m, evs[0]).0, evs[1..]);
    }
  }

  // ---------- what is decoded once is not decoded again ----------

  /**
   After a fetch the page is in front and its flag set: the next fetch from the
   page takes its instruction from there, whatever the decoder, and changes
   nothing.
  */
  lemma DecodedOnce<I>(decode: bv32 -> I, other: bv32 -> I, m: Mem, cache: seq<Page<I>>, phys: nat, next: nat)
    requires WellFormed(m) && Current(decode, m, cache) && phys < SPACE && phys % 4 == 0 && Wired(m, phys)
    requires next < SPACE && next % 4 == 0 && next / FRAME_SIZE == phys / FRAME_SIZE
    ensures Full(cache) && Full(Fetch(decode, m, cache, phys).cache)
    ensures var f := Fetch(decode, m, cache, phys);
            Fetch(other, f.mem, f.cache, next) == Fetched(decode(Read32(m, next)), f.mem, f.cache)
  {
    hide Read32, WellFormed, FrameOf, Wired, Current;
    FetchCurrent(decode, m, cache, phys);
    var f := Fetch(decode, m, cache, phys);
    CurrentIsFull(decode, f.mem, f.cache);
    PageOfPhys(phys);
    PageOfPhys(next);
    FrontPage(decode, m, cache, phys);
    WordOfPage(decode, m, next);
    assert Hit(f.cache, next) == 0;
    assert T.Without(f.cache, 0) == f.cache[1..];
    assert [f.cache[0]] + f.cache[1..] == f.cache;
    assert MarkValid(f.mem, PageOf(next)) == f.mem;
  }

  lemma CurrentIsFull<I>(decode: bv32 -> I, m: Mem, cache: seq<Page<I>>)
    requires Current(decode, m, cache)
    ensures Full(cache)
  {
    hide Wired;
    assert forall i :: 0 <= i < |cache| ==> PageCurrent(decode, m, cache[i]);
  }

  lemma FrontPage<I>(decode: bv32 -> I, m: Mem, cache: seq<Page<I>>, phys: nat)
    requires WellFormed(m) && Current(decode, m, cache) && Full(cache)
    requires phys < SPACE && phys % 4 == 0 && Wired(m, phys)
    ensures var f := Fetch(decode, m, cache, phys);
            && f.cache != [] && f.cache[0].addr == PageOf(phys) && FrameOf(PageOf(phys)) in f.mem.valid
            && f.cache[0].instrs == DecodePage(decode, m, PageOf(phys))
  {
    hide Read32, WellFormed, FrameOf, Wired;
    PageOfPhys(phys);
    var k := Hit(cache, phys);
    if k < |cache| {
      assert PageCurrent(decode, m, cache[k]);
    }
  }

  lemma WordOfPage<I>(decode: bv32 -> I, m: Mem, phys: nat)
    requires phys < SPACE && phys % 4 == 0
    ensures DecodePage(decode, m, PageOf(phys))[Slot(phys)] == decode(Read32(m, phys))
  {
    hide Read32;
    PageOfPhys(phys);
  }
}
