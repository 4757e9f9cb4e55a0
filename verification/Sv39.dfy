/**
 Sv39 address translation as the RV64 processor performs it: the unrolled
 three-level walk, the access check and the physical address, compared with
 the level-recursive algorithm.
*/
module Sv39 {
  import opened Options
  import opened Memory
  import PT = PageTable

  /** A page-table entry is its 64-bit word; bits 54 to 63 are not looked at. */
  type Pte = bv64

  predicate V(p: Pte) { p & 0x01 != 0 }
  predicate R(p: Pte) { p & 0x02 != 0 }
  predicate W(p: Pte) { p & 0x04 != 0 }
  predicate X(p: Pte) { p & 0x08 != 0 }
  predicate U(p: Pte) { p & 0x10 != 0 }
  predicate G(p: Pte) { p & 0x20 != 0 }
  predicate A(p: Pte) { p & 0x40 != 0 }
  predicate D(p: Pte) { p & 0x80 != 0 }
  function Ppn(p: Pte): nat { ((p >> 10) & 0xFFF_FFFF_FFFF) as nat }

  predicate IsValid(p: Pte) { V(p) && (!W(p) || R(p)) }

  predicate IsLeaf(p: Pte) { R(p) || W(p) || X(p) }

  const MEGAPAGE: nat := 0x20_0000
  const GIGAPAGE: nat := 0x4000_0000

  /** The privilege the access is checked for and the status bits it depends on. */
  datatype Csr = Csr(priv: nat, sum: bool, mxr: bool, root: nat)

  /** `rv64_is_access_allowed` */
  predicate AccessAllowed(c: Csr, p: Pte, wr: bool, fetch: bool) {
    if wr && !W(p) then false
    else if fetch && !X(p) then false
    else if !wr && !fetch && !R(p) && !(c.mxr && X(p)) then false
    else if c.priv == 1 && !c.sum && U(p) then false
    else if c.priv == 1 && fetch && U(p) then false
    else if c.priv == 0 && !U(p) then false
    else true
  }

  datatype Size = Page | Mega | Giga

  function Level(s: Size): nat { match s case Page => 0 case Mega => 1 case Giga => 2 }

  datatype Leaf = Leaf(addr: nat, pte: Pte, size: Size, global: bool)

  function PteAt(m: Mem, addr: nat): Pte {
    (Read32(m, addr) as bv64) | ((Read32(m, addr + 4) as bv64) << 32)
  }

  function Addr2(root: nat, virt: nat): nat { root * 4096 + virt / GIGAPAGE % 512 * 8 }

  function Addr1(p: Pte, virt: nat): nat { Ppn(p) * 4096 + virt / MEGAPAGE % 512 * 8 }

  function Addr0(p: Pte, virt: nat): nat { Ppn(p) * 4096 + virt / 4096 % 512 * 8 }

  /** The part of `rv64_pagewalk` that looks for the leaf; every `None` is a page fault. */
  function FindLeaf(m: Mem, root: nat, virt: nat): Option<Leaf> {
    var addr2 := Addr2(root, virt);
    var pte2 := PteAt(m, addr2);
    if !IsValid(pte2) then None
    else if IsLeaf(pte2) then
      if Ppn(pte2) % 512 != 0 || Ppn(pte2) / 512 % 512 != 0 then None
      else Some(Leaf(addr2, pte2, Giga, G(pte2)))
    else
      var addr1 := Addr1(pte2, virt);
      var pte1 := PteAt(m, addr1);
      if !IsValid(pte1) then None
      else if IsLeaf(pte1) then
        if Ppn(pte1) % 512 != 0 then None
        else Some(Leaf(addr1, pte1, Mega, G(pte2) || G(pte1)))
      else
        var addr0 := Addr0(pte1, virt);
        var pte0 := PteAt(m, addr0);
        if !IsValid(pte0) then None
        else if !IsLeaf(pte0) then None
        else Some(Leaf(addr0, pte0, Page, G(pte2) || G(pte1) || G(pte0)))
  }

  /** `sv39_make_phys_from_ppn`; the fields are disjoint, so `|` is a sum. */
  function MakePhys(virt: nat, p: Pte, size: Size): nat {
    var ppn2 := Ppn(p) / 0x4_0000 * GIGAPAGE;
    var ppn1 := Ppn(p) / 512 % 512 * MEGAPAGE;
    var ppn0 := Ppn(p) % 512 * 4096;
    var offset := virt % 4096;
    match size
    case Mega => ppn2 + ppn1 + virt / 4096 % 512 * 4096 + offset
    case Giga => ppn2 + virt / 4096 % 0x4_0000 * 4096 + offset
    case Page => ppn2 + ppn1 + ppn0 + offset
  }

  // ---------- the walk and the reference algorithm ----------

  const SCHEME := PT.Scheme(3, 512, 8)

  function View(p: Pte): PT.Entry { PT.Entry(V(p), R(p), W(p), X(p), U(p), G(p), A(p), D(p), Ppn(p)) }

  function Reader(m: Mem): nat -> PT.Entry { (addr: nat) => View(PteAt(m, addr)) }

  function AccessOf(wr: bool, fetch: bool): PT.Access {
    if fetch then PT.Fetch else if wr then PT.Store else PT.Load
  }

  lemma Spans()
    ensures PT.Pow(512, 0) == 1 && PT.Pow(512, 1) == 512 && PT.Pow(512, 2) == 0x4_0000
    ensures PT.Span(SCHEME, 0) == 4096 && PT.Span(SCHEME, 1) == MEGAPAGE && PT.Span(SCHEME, 2) == GIGAPAGE
  {
    assert PT.Pow(512, 1) == 512 * PT.Pow(512, 0);
    assert PT.Pow(512, 2) == 512 * PT.Pow(512, 1);
  }

  lemma Vpns(virt: nat)
    ensures PT.Vpn(SCHEME, virt, 0) == virt / 4096 % 512
    ensures PT.Vpn(SCHEME, virt, 1) == virt / MEGAPAGE % 512
    ensures PT.Vpn(SCHEME, virt, 2) == virt / GIGAPAGE % 512
  {
    Spans();
  }

  lemma GigaAlignment(ppn: nat)
    ensures ppn % 0x4_0000 != 0 <==> ppn % 512 != 0 || ppn / 512 % 512 != 0
  {
    assert ppn % 0x4_0000 == ppn / 512 % 512 * 512 + ppn % 512;
  }

  /** From the last level. */
  lemma Level0IsReference(m: Mem, pte1: Pte, virt: nat, global: bool)
    ensures var p := PteAt(m, Addr0(pte1, virt));
            PT.Descend(Reader(m), SCHEME, Ppn(pte1) * PT.PAGE, 0, virt, global) ==
            if !IsValid(p) || !IsLeaf(p) then None else Some(PT.Found(Addr0(pte1, virt), View(p), 0, global || G(p)))
  {
    hide PteAt, Ppn, V, R, W, X, G, PT.Vpn, PT.Span;
    Spans();
    Vpns(virt);
    assert Reader(m)(Addr0(pte1, virt)) == View(PteAt(m, Addr0(pte1, virt)));
  }

  /** From the middle level. */
  lemma Level1IsReference(m: Mem, pte2: Pte, virt: nat, global: bool)
    ensures var p := PteAt(m, Addr1(pte2, virt));
            PT.Descend(Reader(m), SCHEME, Ppn(pte2) * PT.PAGE, 1, virt, global) ==
            if !IsValid(p) then None
            else if IsLeaf(p) then
              if Ppn(p) % 512 != 0 then None else Some(PT.Found(Addr1(pte2, virt), View(p), 1, global || G(p)))
            else PT.Descend(Reader(m), SCHEME, Ppn(p) * PT.PAGE, 0, virt, global || G(p))
  {
    hide PteAt, Ppn, V, R, W, X, G, PT.Vpn, PT.Span;
    Spans();
    Vpns(virt);
    assert Reader(m)(Addr1(pte2, virt)) == View(PteAt(m, Addr1(pte2, virt)));
  }

  /**
   The unrolled walk is the level-recursive one: same page faults, same leaf
   entry at the same place, same page size, same global flag, for all tables.
  */
  lemma WalkIsReference(m: Mem, root: nat, virt: nat)
    ensures var ref := PT.Lookup(Reader(m), SCHEME, root, virt);
            match FindLeaf(m, root, virt)
            case None => ref == None
            case Some(l) => ref == Some(PT.Found(l.addr, View(l.pte), Level(l.size), l.global))
  {
    hide PteAt, Ppn, V, R, W, X, G, PT.Vpn, PT.Span;
    Spans();
    Vpns(virt);
    var pte2 := PteAt(m, Addr2(root, virt));
    assert Reader(m)(Addr2(root, virt)) == View(pte2);
    GigaAlignment(Ppn(pte2));
    if IsValid(pte2) && !IsLeaf(pte2) {
      assert PT.Lookup(Reader(m), SCHEME, root, virt) ==
        PT.Descend(Reader(m), SCHEME, Ppn(pte2) * PT.PAGE, 1, virt, G(pte2));
      Level1IsReference(m, pte2, virt, G(pte2));
      var pte1 := PteAt(m, Addr1(pte2, virt));
      Level0IsReference(m, pte1, virt, G(pte2) || G(pte1));
    }
  }

  lemma MakePhysIsStep8(virt: nat, p: Pte, size: Size)
    ensures MakePhys(virt, p, size) ==
            match size
            case Page => Ppn(p) * 4096 + virt % 4096
            case Mega => Ppn(p) / 512 * MEGAPAGE + virt % MEGAPAGE
            case Giga => Ppn(p) / 0x4_0000 * GIGAPAGE + virt % GIGAPAGE
  {
    hide Ppn;
    var n := Ppn(p);
    assert n / 512 == n / 0x4_0000 * 512 + n / 512 % 512;
    assert n == n / 512 * 512 + n % 512;
    assert virt % MEGAPAGE == virt / 4096 % 512 * 4096 + virt % 4096;
    assert virt % GIGAPAGE == virt / 4096 % 0x4_0000 * 4096 + virt % 4096;
  }

  /** The physical address is the one of step 8. */
  lemma PhysIsReference(m: Mem, root: nat, virt: nat)
    requires FindLeaf(m, root, virt).Some? && PT.Lookup(Reader(m), SCHEME, root, virt).Some?
    ensures MakePhys(virt, FindLeaf(m, root, virt).value.pte, FindLeaf(m, root, virt).value.size) ==
            PT.PhysicalAddress(SCHEME, PT.Lookup(Reader(m), SCHEME, root, virt).value, virt)
  {
    hide PteAt, Ppn, FindLeaf;
    Spans();
    WalkIsReference(m, root, virt);
    var l := FindLeaf(m, root, virt).value;
    MakePhysIsStep8(virt, l.pte, l.size);
  }

  /** The access check is step 6, for every entry, privilege and status bit. */
  lemma AccessIsReference(c: Csr, p: Pte, wr: bool, fetch: bool)
    requires c.priv <= 1 && !(wr && fetch)
    ensures AccessAllowed(c, p, wr, fetch) <==>
            PT.Permitted(View(p), AccessOf(wr, fetch), if c.priv == 0 then PT.User else PT.Supervisor, c.sum, c.mxr)
  {}

  // ---------- what the standard reserves ----------

  /** Bits 38 to 63 of a virtual address are all equal. */
  predicate Canonical(virt: nat) { virt < 0x40_0000_0000 || 0xFFFF_FFC0_0000_0000 <= virt < 0x1_0000_0000_0000_0000 }

  /** Bits 54 to 63 are zero, and in a pointer to the next level also D, A and U. */
  predicate Clean(p: Pte) { p >> 54 == 0 && (IsLeaf(p) || p & 0xD0 == 0) }

  /** To the standard an entry with a reserved bit set is invalid. */
  function StrictView(p: Pte): PT.Entry { View(p).(v := V(p) && Clean(p)) }

  function StrictReader(m: Mem): nat -> PT.Entry { (addr: nat) => StrictView(PteAt(m, addr)) }

  function Standard(m: Mem, root: nat, virt: nat): Option<PT.Found> {
    if !Canonical(virt) then None else PT.Lookup(StrictReader(m), SCHEME, root, virt)
  }

  function Image(l: Option<Leaf>): Option<PT.Found> {
    match l
    case None => None
    case Some(l) => Some(PT.Found(l.addr, View(l.pte), Level(l.size), l.global))
  }

  /** The entries the walk looks at are clean. */
  predicate CleanPath(m: Mem, root: nat, virt: nat) {
    var pte2 := PteAt(m, Addr2(root, virt));
    Clean(pte2) &&
    (IsValid(pte2) && !IsLeaf(pte2) ==>
       var pte1 := PteAt(m, Addr1(pte2, virt));
       Clean(pte1) &&
       (IsValid(pte1) && !IsLeaf(pte1) ==> Clean(PteAt(m, Addr0(pte1, virt)))))
  }

  /** One step of the strict walk. */
  lemma StrictStep(m: Mem, base: nat, level: nat, virt: nat, global: bool)
    ensures var addr := base + PT.Vpn(SCHEME, virt, level) * 8;
            var p := PteAt(m, addr);
            PT.Descend(StrictReader(m), SCHEME, base, level, virt, global) ==
            if !Clean(p) || !IsValid(p) then None
            else if IsLeaf(p) then
              if Ppn(p) % PT.Pow(512, level) != 0 then None else Some(PT.Found(addr, View(p), level, global || G(p)))
            else if level == 0 then None
            else PT.Descend(StrictReader(m), SCHEME, Ppn(p) * PT.PAGE, level - 1, virt, global || G(p))
  {
    hide PteAt, Ppn, V, R, W, X, G, Clean, PT.Vpn, PT.Span;
    var addr := base + PT.Vpn(SCHEME, virt, level) * 8;
    assert StrictReader(m)(addr) == StrictView(PteAt(m, addr));
  }

  lemma StrictWalk(m: Mem, root: nat, virt: nat)
    ensures PT.Lookup(StrictReader(m), SCHEME, root, virt) ==
            if CleanPath(m, root, virt) then Image(FindLeaf(m, root, virt)) else None
  {
    hide PteAt, Ppn, V, R, W, X, G, Clean, PT.Vpn, PT.Span, PT.Descend, PT.Pow;
    Spans();
    Vpns(virt);
    StrictStep(m, root * PT.PAGE, 2, virt, false);
    var pte2 := PteAt(m, Addr2(root, virt));
    GigaAlignment(Ppn(pte2));
    StrictStep(m, Ppn(pte2) * PT.PAGE, 1, virt, G(pte2));
    var pte1 := PteAt(m, Addr1(pte2, virt));
    StrictStep(m, Ppn(pte1) * PT.PAGE, 0, virt, G(pte2) || G(pte1));
  }

  /**
   The walk finds what the standard finds exactly when it faults itself, or
   the address is canonical and no entry on the way has a reserved bit set.
  */
  lemma WalkIsStandardIff(m: Mem, root: nat, virt: nat)
    ensures Standard(m, root, virt) == Image(FindLeaf(m, root, virt)) <==>
            FindLeaf(m, root, virt).None? || (Canonical(virt) && CleanPath(m, root, virt))
  {
    hide FindLeaf, CleanPath, View, Level;
    StrictWalk(m, root, virt);
  }

  /** A root table in frame 0 with two gigapages, of which the second has bit 63 set. */
  const MARKED: Mem := Mem(map x: nat | 0 <= x < 4096 ::
                             if x == 0 || x == 8 then 0x03 else if x == 15 then 0x80 else 0, {}, {})

  lemma MarkedBits()
    ensures Join32(0x03, 0, 0, 0) == 0x03 && Join32(0, 0, 0, 0x80) == 0x8000_0000 && Join32(0, 0, 0, 0) == 0
    ensures (0x03 as bv32) as bv64 | ((0x8000_0000 as bv32) as bv64 << 32) == 0x8000_0000_0000_0003
    ensures (0x03 as bv32) as bv64 | ((0 as bv32) as bv64 << 32) == 0x03
    ensures IsValid(0x03) && IsLeaf(0x03)
    ensures var p := 0x8000_0000_0000_0003; IsValid(p) && IsLeaf(p) && !Clean(p)
  {}

  lemma MarkedPpn()
    ensures Ppn(0x03) == 0 && Ppn(0x8000_0000_0000_0003) == 0
  {
    assert ((0x03 as bv64) >> 10) & 0xFFF_FFFF_FFFF == 0;
    assert ((0x8000_0000_0000_0003 as bv64) >> 10) & 0xFFF_FFFF_FFFF == 0;
  }

  lemma MarkedEntries()
    ensures PteAt(MARKED, 0) == 0x03 && PteAt(MARKED, 8) == 0x8000_0000_0000_0003
  {
    MarkedBits();
    hide Join32;
  }

  /** So the walk accepts a reserved bit, and an address outside the 39-bit space, where the standard faults. */
  lemma ReservedIgnored()
    ensures FindLeaf(MARKED, 0, GIGAPAGE).Some? && Standard(MARKED, 0, GIGAPAGE) == None
    ensures FindLeaf(MARKED, 0, 0x80_0000_0000).Some? && Standard(MARKED, 0, 0x80_0000_0000) == None
  {
    hide PteAt, Ppn, V, R, W, X, G, Clean, IsValid, IsLeaf, PT.Lookup;
    MarkedBits();
    MarkedPpn();
    MarkedEntries();
    StrictWalk(MARKED, 0, GIGAPAGE);
  }
}
