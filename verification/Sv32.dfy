/**
 Sv32 address translation as the RV32 processor performs it: the page-table
 entry layout, the access check and the unrolled two-level walk with its
 write-back of the accessed and dirty bits.
*/
module Sv32 {
  import opened Options
  import opened Memory
  import PT = PageTable

  const MEGAPAGE: nat := 0x40_0000

  /** A page-table entry is its 32-bit word; the bit fields below are views of it. */
  type Pte = bv32

  predicate V(p: Pte) { p & 0x01 != 0 }
  predicate R(p: Pte) { p & 0x02 != 0 }
  predicate W(p: Pte) { p & 0x04 != 0 }
  predicate X(p: Pte) { p & 0x08 != 0 }
  predicate U(p: Pte) { p & 0x10 != 0 }
  predicate G(p: Pte) { p & 0x20 != 0 }
  predicate A(p: Pte) { p & 0x40 != 0 }
  predicate D(p: Pte) { p & 0x80 != 0 }
  function Ppn(p: Pte): nat { (p >> 10) as nat }

  predicate IsValid(p: Pte) { V(p) && (!W(p) || R(p)) }

  predicate IsLeaf(p: Pte) { R(p) || W(p) || X(p) }

  predicate Misaligned(p: Pte) { Ppn(p) % 1024 != 0 }

  /** What the walk reads from the control registers of a hart; modes are 0 (U), 1 (S) and 3 (M). */
  datatype Csr = Csr(mode: nat, mprv: bool, mpp: nat, mxr: bool, sum: bool, bare: bool, asid: nat, root: nat)

  function EffectivePriv(c: Csr): nat { if c.mprv then c.mpp else c.mode }

  predicate UseSv32(c: Csr, fetch: bool) {
    EffectivePriv(c) <= 1 && !c.bare && !(c.mode == 3 && fetch)
  }

  predicate AccessAllowed(c: Csr, p: Pte, wr: bool, fetch: bool) {
    if wr && !W(p) then false
    else if fetch && !X(p) then false
    else if !wr && !fetch && !R(p) && !(c.mxr && X(p)) then false
    else if EffectivePriv(c) == 1 && !c.sum && U(p) then false
    else if EffectivePriv(c) == 1 && fetch && U(p) then false
    else if EffectivePriv(c) == 0 && !U(p) then false
    else true
  }

  predicate UpdateNeeded(p: Pte, wr: bool) { !A(p) || (!D(p) && wr) }

  function Updated(p: Pte, wr: bool): Pte { p | 0x40 | (if wr then 0x80 else 0) }

  datatype Exc = InstructionPageFault | LoadPageFault | StoreAmoPageFault

  function PageFault(wr: bool, fetch: bool): Exc {
    if fetch then InstructionPageFault else if wr then StoreAmoPageFault else LoadPageFault
  }

  datatype Translation = Fault(exc: Exc) | Phys(addr: nat)

  /** The fields masked out of the page number and the virtual address are disjoint, so `|` is a sum. */
  function MakePhys(virt: nat, p: Pte, mega: bool): nat {
    var ppn1 := Ppn(p) / 1024 * 1024 * 4096;
    var ppn0 := if mega then virt / 4096 % 1024 * 4096 else Ppn(p) % 1024 * 4096;
    ppn1 + ppn0 + virt % 4096
  }

  datatype Leaf = Leaf(addr: nat, pte: Pte, mega: bool, global: bool)

  function PteAt(m: Mem, addr: nat): Pte { Read32(m, addr) }

  function Level1Addr(root: nat, virt: nat): nat { root * 4096 + virt / MEGAPAGE % 1024 * 4 }

  function Level0Addr(p: Pte, virt: nat): nat { Ppn(p) * 4096 + virt / 4096 % 1024 * 4 }

  /** The part of the walk that looks for the leaf; every `None` is a page fault. */
  function FindLeaf(m: Mem, root: nat, virt: nat): Option<Leaf> {
    var addr1 := Level1Addr(root, virt);
    var pte1 := PteAt(m, addr1);
    if !IsValid(pte1) then None
    else if IsLeaf(pte1) then
      if Misaligned(pte1) then None else Some(Leaf(addr1, pte1, true, G(pte1)))
    else
      var addr0 := Level0Addr(pte1, virt);
      var pte0 := PteAt(m, addr0);
      if !IsValid(pte0) then None
      else if !IsLeaf(pte0) then None
      else Some(Leaf(addr0, pte0, false, G(pte1) || G(pte0)))
  }

  /** What a walk yields: the translation, memory afterwards and, on success, the leaf to cache. */
  datatype Walked = Walked(result: Translation, mem: Mem, leaf: Option<Leaf>)

  /** `rv32_pagewalk` without its TLB insertion. */
  function Pagewalk(m: Mem, c: Csr, virt: nat, wr: bool, fetch: bool, noisy: bool): Walked {
    match FindLeaf(m, c.root, virt)
    case None => Walked(Fault(PageFault(wr, fetch)), m, None)
    case Some(l) =>
      if !AccessAllowed(c, l.pte, wr, fetch) then Walked(Fault(PageFault(wr, fetch)), m, None)
      else if UpdateNeeded(l.pte, wr) then
        var pte := Updated(l.pte, wr);
        Walked(Phys(MakePhys(virt, pte, l.mega)),
               if noisy then Write32(m, l.addr, pte, true) else m,
               Some(l.(pte := pte)))
      else
        Walked(Phys(MakePhys(virt, l.pte, l.mega)), m, Some(l))
  }

  // ---------- the walk and the reference algorithm ----------

  const SCHEME := PT.Scheme(2, 1024, 4)

  function View(p: Pte): PT.Entry { PT.Entry(V(p), R(p), W(p), X(p), U(p), G(p), A(p), D(p), Ppn(p)) }

  function Reader(m: Mem): nat -> PT.Entry { (addr: nat) => View(PteAt(m, addr)) }

  function AccessOf(wr: bool, fetch: bool): PT.Access {
    if fetch then PT.Fetch else if wr then PT.Store else PT.Load
  }

  lemma Spans()
    ensures PT.Pow(1024, 0) == 1 && PT.Pow(1024, 1) == 1024
    ensures PT.Span(SCHEME, 0) == 4096 && PT.Span(SCHEME, 1) == MEGAPAGE
  {
    assert PT.Pow(1024, 1) == 1024 * PT.Pow(1024, 0);
  }

  lemma Vpns(virt: nat)
    ensures PT.Vpn(SCHEME, virt, 0) == virt / 4096 % 1024
    ensures PT.Vpn(SCHEME, virt, 1) == virt / MEGAPAGE % 1024
  {
    Spans();
  }

  /**
   The unrolled walk is the level-recursive one: same page faults, same leaf
   entry at the same place, same page size, same global flag, for all tables.
  */
  lemma WalkIsReference(m: Mem, root: nat, virt: nat)
    ensures var ref := PT.Lookup(Reader(m), SCHEME, root, virt);
            match FindLeaf(m, root, virt)
            case None => ref == None
            case Some(l) => ref == Some(PT.Found(l.addr, View(l.pte), if l.mega then 1 else 0, l.global))
  {
    hide PteAt, Ppn, V, R, W, X, G, PT.Vpn, PT.Span;
    Spans();
    Vpns(virt);
    var addr1 := Level1Addr(root, virt);
    var pte1 := PteAt(m, addr1);
    assert Reader(m)(addr1) == View(pte1);
    if IsValid(pte1) && !IsLeaf(pte1) {
      var base := Ppn(pte1) * PT.PAGE;
      assert PT.Lookup(Reader(m), SCHEME, root, virt) == PT.Descend(Reader(m), SCHEME, base, 0, virt, G(pte1));
      assert Reader(m)(Level0Addr(pte1, virt)) == View(PteAt(m, Level0Addr(pte1, virt)));
    }
  }

  lemma MakePhysIsStep8(virt: nat, p: Pte, mega: bool)
    ensures MakePhys(virt, p, mega) ==
            if mega then Ppn(p) / 1024 * MEGAPAGE + virt % MEGAPAGE else Ppn(p) * 4096 + virt % 4096
  {
    hide Ppn;
    if mega {
      assert virt % MEGAPAGE == virt / 4096 % 1024 * 4096 + virt % 4096;
    }
  }

  /** The physical address is the one of step 8. */
  lemma PhysIsReference(m: Mem, root: nat, virt: nat)
    requires FindLeaf(m, root, virt).Some? && PT.Lookup(Reader(m), SCHEME, root, virt).Some?
    ensures MakePhys(virt, FindLeaf(m, root, virt).value.pte, FindLeaf(m, root, virt).value.mega) ==
            PT.PhysicalAddress(SCHEME, PT.Lookup(Reader(m), SCHEME, root, virt).value, virt)
  {
    hide PteAt, Ppn;
    Spans();
    WalkIsReference(m, root, virt);
    var l := FindLeaf(m, root, virt).value;
    MakePhysIsStep8(virt, l.pte, l.mega);
  }

  /** The access check is step 6, for every entry, privilege and status bit. */
  lemma AccessIsReference(c: Csr, p: Pte, wr: bool, fetch: bool)
    requires EffectivePriv(c) <= 1 && !(wr && fetch)
    ensures AccessAllowed(c, p, wr, fetch) <==>
            PT.Permitted(View(p), AccessOf(wr, fetch),
                         if EffectivePriv(c) == 0 then PT.User else PT.Supervisor, c.sum, c.mxr)
  {}

  // ---------- what the standard reserves ----------

  /** In a pointer to the next level D, A and U are zero. */
  predicate Clean(p: Pte) { IsLeaf(p) || p & 0xD0 == 0 }

  /** To the standard an entry with a reserved bit set is invalid. */
  function StrictView(p: Pte): PT.Entry { View(p).(v := V(p) && Clean(p)) }

  function StrictReader(m: Mem): nat -> PT.Entry { (addr: nat) => StrictView(PteAt(m, addr)) }

  function Image(l: Option<Leaf>): Option<PT.Found> {
    match l
    case None => None
    case Some(l) => Some(PT.Found(l.addr, View(l.pte), if l.mega then 1 else 0, l.global))
  }

  /** One step of the strict walk. */
  lemma StrictStep(m: Mem, base: nat, level: nat, virt: nat, global: bool)
    ensures var addr := base + PT.Vpn(SCHEME, virt, level) * 4;
            var p := PteAt(m, addr);
            PT.Descend(StrictReader(m), SCHEME, base, level, virt, global) ==
            if !Clean(p) || !IsValid(p) then None
            else if IsLeaf(p) then
              if Ppn(p) % PT.Pow(1024, level) != 0 then None else Some(PT.Found(addr, View(p), level, global || G(p)))
            else if level == 0 then None
            else PT.Descend(StrictReader(m), SCHEME, Ppn(p) * PT.PAGE, level - 1, virt, global || G(p))
  {
    hide PteAt, Ppn, V, R, W, X, G, Clean, PT.Vpn, PT.Span;
    var addr := base + PT.Vpn(SCHEME, virt, level) * 4;
    assert StrictReader(m)(addr) == StrictView(PteAt(m, addr));
  }

  /**
   The walk finds what the strict standard finds exactly when it faults
   itself, or the entry it read first has no reserved bit set.
  */
  lemma WalkIsStandardIff(m: Mem, root: nat, virt: nat)
    ensures PT.Lookup(StrictReader(m), SCHEME, root, virt) == Image(FindLeaf(m, root, virt)) <==>
            FindLeaf(m, root, virt).None? || Clean(PteAt(m, Level1Addr(root, virt)))
  {
    hide PteAt, Ppn, V, R, W, X, G, Clean, PT.Vpn, PT.Span, PT.Descend, PT.Pow;
    Spans();
    Vpns(virt);
    StrictStep(m, root * PT.PAGE, 1, virt, false);
    var pte1 := PteAt(m, Level1Addr(root, virt));
    StrictStep(m, Ppn(pte1) * PT.PAGE, 0, virt, G(pte1));
    if IsLeaf(PteAt(m, Level0Addr(pte1, virt))) {
      LeafIsClean(PteAt(m, Level0Addr(pte1, virt)));
    }
  }

  lemma LeafIsClean(p: Pte)
    requires IsLeaf(p)
    ensures Clean(p)
  {}

  /** A root table in frame 0 whose first entry points to frame 1 with its D bit set, and a readable page there. */
  const MARKED: Mem := Mem(map x: nat | 0 <= x < 8192 ::
                             if x == 0 then 0x81 else if x == 1 then 0x04 else if x == 4096 then 0x03 else 0, {}, {})

  lemma MarkedBits()
    ensures Join32(0x81, 0x04, 0, 0) == 0x481 && Join32(0x03, 0, 0, 0) == 0x03
    ensures IsValid(0x481) && !IsLeaf(0x481) && !Clean(0x481) && IsValid(0x03) && IsLeaf(0x03)
  {}

  lemma MarkedPpn()
    ensures Ppn(0x481) == 1
  {
    assert (0x481 as bv32) >> 10 == 1;
  }

  lemma MarkedEntries()
    ensures PteAt(MARKED, 0) == 0x481 && PteAt(MARKED, 4096) == 0x03
  {
    hide Join32;
    MarkedBits();
  }

  /** So the walk goes through a pointer the standard faults on. */
  lemma MarkedPointerFollowed()
    ensures FindLeaf(MARKED, 0, 0).Some? && FindLeaf(MARKED, 0, 0).value.addr == 4096
    ensures PT.Lookup(StrictReader(MARKED), SCHEME, 0, 0) == None
  {
    hide PteAt, Ppn, V, R, W, X, G, Clean, IsValid, IsLeaf, PT.Vpn, PT.Span, PT.Descend, PT.Pow;
    MarkedBits();
    MarkedPpn();
    MarkedEntries();
    Spans();
    Vpns(0);
    StrictStep(MARKED, 0, 1, 0, false);
  }

  // ---------- writing back the accessed and dirty bits ----------

  /** Equal except for the accessed and dirty bits. */
  predicate SameButAD(p: Pte, q: Pte) { p | 0xC0 == q | 0xC0 }

  /** The accessed and dirty bits of `p` are set in `q` too. */
  predicate ADWithin(p: Pte, q: Pte) { (A(p) ==> A(q)) && (D(p) ==> D(q)) }

  /** Nothing but the update test looks at the accessed and dirty bits. */
  lemma ADIrrelevant(p: Pte, q: Pte)
    requires SameButAD(p, q)
    ensures IsValid(p) == IsValid(q) && IsLeaf(p) == IsLeaf(q) && G(p) == G(q) && Ppn(p) == Ppn(q)
    ensures U(p) == U(q) && R(p) == R(q) && W(p) == W(q) && X(p) == X(q)
  {
    ADShift(p, q);
    ADFlags(p, q);
    hide V, R, W, X, U, G;
  }

  lemma ADShift(p: Pte, q: Pte)
    requires SameButAD(p, q)
    ensures p >> 10 == q >> 10
  {}

  lemma ADFlags(p: Pte, q: Pte)
    requires SameButAD(p, q)
    ensures V(p) == V(q) && R(p) == R(q) && W(p) == W(q) && X(p) == X(q) && U(p) == U(q) && G(p) == G(q)
  {}

  lemma UpdateSetsAD(p: Pte, wr: bool)
    ensures SameButAD(p, Updated(p, wr)) && ADWithin(p, Updated(p, wr))
    ensures A(Updated(p, wr)) && D(Updated(p, wr)) == (D(p) || wr)
    ensures !UpdateNeeded(Updated(p, wr), wr)
  {}

  /** Memories whose words agree except for accessed and dirty bits, which only grow from `m` to `n`. */
  ghost predicate Grown(m: Mem, n: Mem) {
    forall addr: nat {:trigger PteAt(n, addr)} :: Aligned(addr, 4) ==>
      SameButAD(PteAt(m, addr), PteAt(n, addr)) && ADWithin(PteAt(m, addr), PteAt(n, addr))
  }

  /** Memories whose words agree except for accessed and dirty bits. */
  ghost predicate Alike(m: Mem, n: Mem) {
    forall addr: nat {:trigger PteAt(n, addr)} :: Aligned(addr, 4) ==> SameButAD(PteAt(m, addr), PteAt(n, addr))
  }

  lemma SameWord(m: Mem, x: nat, y: nat)
    requires Aligned(x, 4) && Aligned(y, 4) && Canon(x) == Canon(y)
    ensures PteAt(m, x) == PteAt(m, y)
  {
    hide Join32;
    AlignedStays(x, 4, 1);
    AlignedStays(y, 4, 1);
    AlignedStays(x, 4, 2);
    AlignedStays(y, 4, 2);
    AlignedStays(x, 4, 3);
    AlignedStays(y, 4, 3);
  }

  /** After writing back entry `addr`, exactly that entry is updated and all others are as before. */
  lemma WriteBack(m: Mem, addr: nat, wr: bool, x: nat)
    requires WellFormed(m) && Aligned(addr, 4) && Aligned(x, 4)
    ensures PteAt(Write32(m, addr, Updated(PteAt(m, addr), wr), true), x) ==
            if Accepts(m, addr, true) && Canon(x) == Canon(addr) then Updated(PteAt(m, x), wr) else PteAt(m, x)
  {
    hide Read32, Write32, Updated;
    Read32AfterWrite32(m, addr, Updated(PteAt(m, addr), wr), true, x);
    if Canon(x) == Canon(addr) {
      SameWord(m, x, addr);
    }
  }

  lemma WriteBackGrows(m: Mem, addr: nat, wr: bool)
    requires WellFormed(m) && Aligned(addr, 4)
    ensures Grown(m, Write32(m, addr, Updated(PteAt(m, addr), wr), true))
  {
    hide Read32, Write32, Updated, PteAt;
    forall x: nat | Aligned(x, 4)
      ensures var n := Write32(m, addr, Updated(PteAt(m, addr), wr), true);
              SameButAD(PteAt(m, x), PteAt(n, x)) && ADWithin(PteAt(m, x), PteAt(n, x))
    {
      WriteBack(m, addr, wr, x);
      UpdateSetsAD(PteAt(m, x), wr);
    }
  }

  /** The address of a leaf is aligned and holds the leaf's entry. */
  lemma LeafInMemory(m: Mem, root: nat, virt: nat)
    requires FindLeaf(m, root, virt).Some?
    ensures var l := FindLeaf(m, root, virt).value;
            Aligned(l.addr, 4) && l.pte == PteAt(m, l.addr) && IsValid(l.pte) && IsLeaf(l.pte) &&
            (l.mega ==> !Misaligned(l.pte))
  {
    hide PteAt, Ppn, V, R, W, X, G;
  }

  /** A leaf as it stands in memory `n`. */
  function Refreshed(l: Option<Leaf>, n: Mem): Option<Leaf> {
    match l
    case None => None
    case Some(l) => Some(l.(pte := PteAt(n, l.addr)))
  }

  /** Walks in memories that differ only in accessed and dirty bits find the same leaf, up to those bits. */
  lemma AlikeWalks(m: Mem, n: Mem, root: nat, virt: nat)
    requires Alike(m, n)
    ensures FindLeaf(n, root, virt) == Refreshed(FindLeaf(m, root, virt), n)
    ensures FindLeaf(m, root, virt).Some? ==>
              var l := FindLeaf(m, root, virt).value;
              Aligned(l.addr, 4) && l.pte == PteAt(m, l.addr) && SameButAD(l.pte, PteAt(n, l.addr))
  {
    hide PteAt, Ppn, V, R, W, X, G, SameButAD;
    var addr1 := Level1Addr(root, virt);
    assert Aligned(addr1, 4);
    ADIrrelevant(PteAt(m, addr1), PteAt(n, addr1));
    var addr0 := Level0Addr(PteAt(m, addr1), virt);
    assert Aligned(addr0, 4);
    ADIrrelevant(PteAt(m, addr0), PteAt(n, addr0));
  }

  /**
   Growing accessed and dirty bits preserves the meaning of every page table: every walk from
   every root for every address has the same outcome, up to the bits that grew.
  */
  lemma GrowthKeepsWalks(m: Mem, n: Mem, root: nat, virt: nat)
    requires Grown(m, n)
    ensures FindLeaf(n, root, virt) == Refreshed(FindLeaf(m, root, virt), n)
    ensures FindLeaf(m, root, virt).Some? ==>
              var l := FindLeaf(m, root, virt).value;
              SameButAD(l.pte, PteAt(n, l.addr)) && ADWithin(l.pte, PteAt(n, l.addr))
  {
    hide PteAt, SameButAD, ADWithin, FindLeaf;
    assert Alike(m, n);
    AlikeWalks(m, n, root, virt);
  }

  lemma PagewalkGrows(m: Mem, c: Csr, virt: nat, wr: bool, fetch: bool)
    requires WellFormed(m)
    ensures var n := Pagewalk(m, c, virt, wr, fetch, true).mem;
            && WellFormed(n) && Grown(m, n)
            && n.bytes.Keys == m.bytes.Keys && n.rom == m.rom
  {
    hide PteAt, Ppn, V, R, W, X, G, SameButAD, ADWithin, WriteBytes, Split32, Updated, AccessAllowed, UpdateNeeded;
    var found := FindLeaf(m, c.root, virt);
    if found.Some? {
      LeafInMemory(m, c.root, virt);
      var l := found.value;
      WriteBackGrows(m, l.addr, wr);
      WriteKeepsShape(m, l.addr, Split32(Updated(l.pte, wr)), true);
      WriteByteAt(m, l.addr, Split32(Updated(l.pte, wr)), true, 0);
    }
    forall p: Pte ensures SameButAD(p, p) && ADWithin(p, p) { Reflexive(p); }
  }

  lemma Reflexive(p: Pte)
    ensures SameButAD(p, p) && ADWithin(p, p)
  {}

  /**
   What a noisy walk does to memory, seen by every other walk: whatever tables alias or share
   the leaf that was written back, each walk finds the leaf it found before.
  */
  lemma PagewalkKeepsWalks(m: Mem, c: Csr, virt: nat, wr: bool, fetch: bool, root: nat, other: nat)
    requires WellFormed(m)
    ensures var n := Pagewalk(m, c, virt, wr, fetch, true).mem;
            FindLeaf(n, root, other) == Refreshed(FindLeaf(m, root, other), n)
    ensures var n := Pagewalk(m, c, virt, wr, fetch, true).mem;
            FindLeaf(m, root, other).Some? ==>
              var l := FindLeaf(m, root, other).value;
              SameButAD(l.pte, PteAt(n, l.addr)) && ADWithin(l.pte, PteAt(n, l.addr))
  {
    PagewalkGrows(m, c, virt, wr, fetch);
    hide FindLeaf, Pagewalk, PteAt, Grown;
    GrowthKeepsWalks(m, Pagewalk(m, c, virt, wr, fetch, true).mem, root, other);
  }
}
