/**
 Physical memory as the rest of the machine sees it: a byte map over the 36-bit
 address space, the frames that are read-only, and the frames whose decoded
 instructions are current (the `valid` flag of a frame).

 Values are bit vectors, addresses are natural numbers.  Only memory is
 modelled: an address without a frame reads as the default value and ignores
 writes.  The host is little-endian.
*/
module Memory {

  const FRAME_SIZE: nat := 4096
  const SPACE: nat := 0x10_0000_0000
  const FRAMES: nat := 0x100_0000

  datatype Mem = Mem(bytes: map<nat, bv8>, rom: set<nat>, valid: set<nat>)

  /** The frame table is indexed by address bits 12 to 35. */
  function Canon(addr: nat): nat { addr % SPACE }

  function FrameOf(addr: nat): nat { Canon(addr) / FRAME_SIZE }

  predicate Wired(m: Mem, addr: nat) { Canon(addr) in m.bytes }

  predicate Writable(m: Mem, addr: nat) { Wired(m, addr) && FrameOf(addr) !in m.rom }

  /** Memory comes in whole frames. */
  ghost predicate WellFormed(m: Mem) {
    && (forall a :: a in m.bytes ==> a < SPACE)
    && (forall a, b :: a in m.bytes && b < SPACE && a / FRAME_SIZE == b / FRAME_SIZE ==> b in m.bytes)
  }

  /** The widths a processor or a device can access. */
  predicate Width(n: nat) { n == 1 || n == 2 || n == 4 || n == 8 }

  /** Natural alignment, for these widths. */
  predicate Aligned(addr: nat, n: nat) {
    && (n == 2 ==> addr % 2 == 0)
    && (n == 4 ==> addr % 4 == 0)
    && (n == 8 ==> addr % 8 == 0)
  }

  function ByteAt(m: Mem, addr: nat): bv8 {
    if Wired(m, addr) then m.bytes[Canon(addr)] else 0xFF
  }

  /** `physmem_read8` to `physmem_read64`: the bytes at `addr`, lowest first. */
  function ReadBytes(m: Mem, addr: nat, n: nat): (bs: seq<bv8>)
    ensures |bs| == n
  {
    seq(n, i requires 0 <= i < n => ByteAt(m, addr + i))
  }

  /** Is a write let through?  A protected write to a read-only frame is not. */
  predicate Accepts(m: Mem, addr: nat, protected: bool) {
    Wired(m, addr) && (protected ==> FrameOf(addr) !in m.rom)
  }

  /** `physmem_write8` to `physmem_write64`: store the bytes and mark the frame's decoded image stale. */
  function WriteBytes(m: Mem, addr: nat, bs: seq<bv8>, protected: bool): Mem {
    if Accepts(m, addr, protected) then
      m.(bytes := map x | x in m.bytes ::
                    if Canon(addr) <= x < Canon(addr) + |bs| then bs[x - Canon(addr)] else m.bytes[x],
         valid := m.valid - {FrameOf(addr)})
    else m
  }

  function Join32(b0: bv8, b1: bv8, b2: bv8, b3: bv8): bv32 {
    (b0 as bv32) | ((b1 as bv32) << 8) | ((b2 as bv32) << 16) | ((b3 as bv32) << 24)
  }

  function Split32(w: bv32): (bs: seq<bv8>)
    ensures |bs| == 4
  {
    [(w & 0xFF) as bv8, ((w >> 8) & 0xFF) as bv8, ((w >> 16) & 0xFF) as bv8, ((w >> 24) & 0xFF) as bv8]
  }

  function Read32(m: Mem, addr: nat): bv32 {
    Join32(ByteAt(m, addr), ByteAt(m, addr + 1), ByteAt(m, addr + 2), ByteAt(m, addr + 3))
  }

  function Write32(m: Mem, addr: nat, w: bv32, protected: bool): Mem {
    WriteBytes(m, addr, Split32(w), protected)
  }

  lemma JoinSplit32(w: bv32)
    ensures var b := Split32(w); Join32(b[0], b[1], b[2], b[3]) == w
  {}

  /** An aligned access stays in its frame and does not wrap around the address space. */
  lemma AlignedStays(addr: nat, n: nat, i: nat)
    requires Width(n) && Aligned(addr, n) && i < n
    ensures Canon(addr + i) == Canon(addr) + i
    ensures Aligned(Canon(addr), n)
    ensures FrameOf(addr + i) == FrameOf(addr)
  {
    var q, c := addr / SPACE, addr % SPACE;
    AlignedRoom(addr, n);
    SpaceDivMod(addr + i, q, c + i);
    FrameDivMod(c + i, c / FRAME_SIZE, c % FRAME_SIZE + i);
  }

  lemma SpaceDivMod(x: nat, q: nat, r: nat)
    requires x == SPACE * q + r && r < SPACE
    ensures x / SPACE == q && x % SPACE == r
  {}

  lemma FrameDivMod(x: nat, q: nat, r: nat)
    requires x == FRAME_SIZE * q + r && r < FRAME_SIZE
    ensures x / FRAME_SIZE == q && x % FRAME_SIZE == r
  {}

  /** The rest of the address space, and of the frame, has room for the whole access. */
  lemma AlignedRoom(addr: nat, n: nat)
    requires Width(n) && Aligned(addr, n)
    ensures Aligned(Canon(addr), n) && Canon(addr) + n <= SPACE
    ensures Canon(addr) % FRAME_SIZE + n <= FRAME_SIZE
  {
    var c := Canon(addr);
    SpaceKeepsLowBits(addr);
    FrameKeepsLowBits(c);
    LowBits(addr);
    LowBits(c);
    LowBits(c % FRAME_SIZE);
    Room(c, n, SPACE);
    Room(c % FRAME_SIZE, n, FRAME_SIZE);
  }

  lemma SpaceKeepsLowBits(x: nat)
    ensures x % SPACE % 8 == x % 8
  {
    assert x % SPACE == x - 8 * (SPACE / 8 * (x / SPACE));
  }

  lemma FrameKeepsLowBits(x: nat)
    ensures x % FRAME_SIZE % 8 == x % 8
  {
    var q, r := x / FRAME_SIZE, x % FRAME_SIZE;
    LowEight(x, 512 * q + r / 8, r % 8);
  }

  lemma LowEight(x: nat, k: nat, r: nat)
    requires x == 8 * k + r && r < 8
    ensures x % 8 == r
  {}

  lemma LowBits(x: nat)
    ensures x % 2 == x % 8 % 2 && x % 4 == x % 8 % 4
  {
    var k, r := x / 8, x % 8;
    LowBits2(x, k, r);
    LowBits4(x, k, r);
  }

  lemma LowBits2(x: nat, k: nat, r: nat)
    requires x == 8 * k + r
    ensures x % 2 == r % 2
  {
    assert x / 2 == 4 * k + r / 2;
  }

  lemma LowBits4(x: nat, k: nat, r: nat)
    requires x == 8 * k + r
    ensures x % 4 == r % 4
  {
    assert x / 4 == 2 * k + r / 4;
  }

  lemma Room(x: nat, n: nat, size: nat)
    requires Width(n) && Aligned(x, n) && x < size && size % 8 == 0
    ensures x + n <= size
  {
    if n == 2 {
      assert x == 2 * (x / 2);
    } else if n == 4 {
      assert x == 4 * (x / 4);
    }
  }

  /** Two aligned words are equal or disjoint. */
  lemma WordsApart(x: nat, y: nat, i: nat, j: nat)
    requires x % 4 == 0 && y % 4 == 0 && x != y && i < 4 && j < 4
    ensures x + i != y + j
  {
    var p, q := x / 4, y / 4;
    assert x == 4 * p && y == 4 * q;
  }

  /** A write changes exactly the bytes it covers, provided it is accepted. */
  lemma WriteByteAt(m: Mem, addr: nat, bs: seq<bv8>, protected: bool, x: nat)
    ensures var m' := WriteBytes(m, addr, bs, protected);
            && m'.bytes.Keys == m.bytes.Keys
            && m'.rom == m.rom
            && ByteAt(m', x) ==
               if Accepts(m, addr, protected) && Wired(m, x) && Canon(addr) <= Canon(x) < Canon(addr) + |bs|
               then bs[Canon(x) - Canon(addr)]
               else ByteAt(m, x)
  {}

  lemma WriteKeepsShape(m: Mem, addr: nat, bs: seq<bv8>, protected: bool)
    requires WellFormed(m)
    ensures WellFormed(WriteBytes(m, addr, bs, protected))
  {
    assert WriteBytes(m, addr, bs, protected).bytes.Keys == m.bytes.Keys;
  }

  /** What an aligned read of the written location returns. */
  lemma ReadOwnWrite(m: Mem, addr: nat, bs: seq<bv8>, protected: bool)
    requires WellFormed(m) && Width(|bs|) && Aligned(addr, |bs|) && Accepts(m, addr, protected)
    ensures ReadBytes(WriteBytes(m, addr, bs, protected), addr, |bs|) == bs
  {
    forall i | 0 <= i < |bs|
      ensures ReadBytes(WriteBytes(m, addr, bs, protected), addr, |bs|)[i] == bs[i]
    {
      AlignedStays(addr, |bs|, i);
      WriteByteAt(m, addr, bs, protected, addr + i);
      assert Canon(addr) in m.bytes && Canon(addr + i) < SPACE;
    }
  }

  /** The 32-bit view of memory after an aligned 32-bit write. */
  lemma Read32AfterWrite32(m: Mem, a: nat, w: bv32, protected: bool, x: nat)
    requires WellFormed(m) && Aligned(a, 4) && Aligned(x, 4)
    ensures Read32(Write32(m, a, w, protected), x) ==
            if Accepts(m, a, protected) && Canon(x) == Canon(a) then w else Read32(m, x)
  {
    JoinSplit32(w);
    Byte32AfterWrite32(m, a, Split32(w), protected, x, 0);
    Byte32AfterWrite32(m, a, Split32(w), protected, x, 1);
    Byte32AfterWrite32(m, a, Split32(w), protected, x, 2);
    Byte32AfterWrite32(m, a, Split32(w), protected, x, 3);
    hide Join32, Split32, WriteBytes, ByteAt, Accepts, Canon;
  }

  lemma Byte32AfterWrite32(m: Mem, a: nat, bs: seq<bv8>, protected: bool, x: nat, i: nat)
    requires WellFormed(m) && |bs| == 4 && Aligned(a, 4) && Aligned(x, 4) && i < 4
    ensures ByteAt(WriteBytes(m, a, bs, protected), x + i) ==
            if Accepts(m, a, protected) && Canon(x) == Canon(a) then bs[i] else ByteAt(m, x + i)
  {
    AlignedStays(x, 4, i);
    AlignedStays(a, 4, i);
    WriteByteAt(m, a, bs, protected, x + i);
    AlignedRoom(a, 4);
    AlignedRoom(x, 4);
    hide WriteBytes, ByteAt;
    if Accepts(m, a, protected) {
      if Canon(x) == Canon(a) {
        assert Canon(a) in m.bytes && Canon(x + i) < SPACE;
        FrameDivMod(Canon(a) + i, Canon(a) / FRAME_SIZE, Canon(a) % FRAME_SIZE + i);
        assert Wired(m, x + i);
      } else if Canon(a) <= Canon(x) + i < Canon(a) + 4 {
        WordsApart(Canon(x), Canon(a), i, Canon(x) + i - Canon(a));
      }
    }
  }

  // ---------- read-only frames ----------

  /** A protected write leaves every byte of every read-only frame as it was. */
  lemma ProtectedWriteSparesRom(m: Mem, addr: nat, bs: seq<bv8>, x: nat)
    requires Width(|bs|) && Aligned(addr, |bs|) && FrameOf(x) in m.rom
    ensures ByteAt(WriteBytes(m, addr, bs, true), x) == ByteAt(m, x) && WriteBytes(m, addr, bs, true).rom == m.rom
  {
    WriteByteAt(m, addr, bs, true, x);
    hide WriteBytes, ByteAt;
    if Canon(addr) <= Canon(x) < Canon(addr) + |bs| {
      AlignedStays(addr, |bs|, Canon(x) - Canon(addr));
      assert FrameOf(addr) == FrameOf(x);
    }
  }

  /** Aligned protected writes, one after the other. */
  function WriteAll(m: Mem, writes: seq<(nat, seq<bv8>)>): Mem
    decreases |writes|
  {
    if writes == [] then m else WriteAll(WriteBytes(m, writes[0].0, writes[0].1, true), writes[1..])
  }

  ghost predicate AllAligned(writes: seq<(nat, seq<bv8>)>) {
    forall i :: 0 <= i < |writes| ==> Width(|writes[i].1|) && Aligned(writes[i].0, |writes[i].1|)
  }

  /** No run of processor and device writes changes read-only memory. */
  lemma {:induction false} RomNeverChanges(m: Mem, writes: seq<(nat, seq<bv8>)>, x: nat)
    requires AllAligned(writes) && FrameOf(x) in m.rom
    ensures ByteAt(WriteAll(m, writes), x) == ByteAt(m, x)
    decreases |writes|
  {
    hide WriteBytes, ByteAt, FrameOf;
    if writes != [] {
      ProtectedWriteSparesRom(m, writes[0].0, writes[0].1, x);
      RomNeverChanges(WriteBytes(m, writes[0].0, writes[0].1, true), writes[1..], x);
    }
  }

  /**
   A write to memory that can be written, or that ignores protection, lands; one to a
   read-only frame or to no memory does not.
  */
  lemma WriteLandsIff(m: Mem, addr: nat, bs: seq<bv8>, protected: bool, i: nat)
    requires WellFormed(m) && Width(|bs|) && Aligned(addr, |bs|) && i < |bs|
    ensures ByteAt(WriteBytes(m, addr, bs, protected), addr + i) ==
            if Canon(addr) in m.bytes && (!protected || Canon(addr) / 4096 !in m.rom) then bs[i]
            else ByteAt(m, addr + i)
  {
    AlignedStays(addr, |bs|, i);
    WriteByteAt(m, addr, bs, protected, addr + i);
  }

  /** Where there is no memory, a read gives all ones. */
  lemma UnwiredReadsOnes(m: Mem, addr: nat)
    requires WellFormed(m) && Aligned(addr, 4) && Canon(addr) !in m.bytes
    ensures Read32(m, addr) == 0xFFFF_FFFF
  {
    AlignedStays(addr, 4, 1);
    AlignedStays(addr, 4, 2);
    AlignedStays(addr, 4, 3);
    AllOnes();
    hide Join32;
  }

  lemma AllOnes()
    ensures Join32(0xFF, 0xFF, 0xFF, 0xFF) == 0xFFFF_FFFF
  {}

  /** The lowest byte comes first. */
  lemma LittleEndian(b0: bv8, b1: bv8, b2: bv8, b3: bv8)
    ensures Join32(b0, b1, b2, b3) ==
            b0 as bv32 + 0x100 * (b1 as bv32) + 0x1_0000 * (b2 as bv32) + 0x100_0000 * (b3 as bv32)
  {}
}
