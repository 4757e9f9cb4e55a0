/**
 What the R4000 TLB translates, in terms of the registers software wrote its
 entries from: pairs of pages, address spaces, frames and permissions.
*/
module R4kMapping {
  import opened R4kTlb

  // ---------- the registers ----------

  // The number of the pair of pages an address is in, for each size of a pair.
  function Pair8K(a: bv32): bv32 { a / 0x2000 }
  function Pair32K(a: bv32): bv32 { a / 0x8000 }
  function Pair128K(a: bv32): bv32 { a / 0x2_0000 }
  function Pair512K(a: bv32): bv32 { a / 0x8_0000 }
  function Pair2M(a: bv32): bv32 { a / 0x20_0000 }
  function Pair8M(a: bv32): bv32 { a / 0x80_0000 }
  function Pair32M(a: bv32): bv32 { a / 0x200_0000 }

  /** The size of a pair is the PageMask rounded up. */
  predicate SamePairOf(pageMask: bv32, a: bv32, b: bv32)
    requires LegalPageMask(pageMask)
  {
    if pageMask == 0 then Pair8K(a) == Pair8K(b)
    else if pageMask == 0x6000 then Pair32K(a) == Pair32K(b)
    else if pageMask == 0x1_E000 then Pair128K(a) == Pair128K(b)
    else if pageMask == 0x7_E000 then Pair512K(a) == Pair512K(b)
    else if pageMask == 0x1F_E000 then Pair2M(a) == Pair2M(b)
    else if pageMask == 0x7F_E000 then Pair8M(a) == Pair8M(b)
    else Pair32M(a) == Pair32M(b)
  }

  /** The second page of its pair. */
  predicate Second(pageMask: bv32, virt: bv32)
    requires LegalPageMask(pageMask)
  {
    if pageMask == 0 then virt / 0x1000 % 2 == 1
    else if pageMask == 0x6000 then virt / 0x4000 % 2 == 1
    else if pageMask == 0x1_E000 then virt / 0x1_0000 % 2 == 1
    else if pageMask == 0x7_E000 then virt / 0x4_0000 % 2 == 1
    else if pageMask == 0x1F_E000 then virt / 0x10_0000 % 2 == 1
    else if pageMask == 0x7F_E000 then virt / 0x40_0000 % 2 == 1
    else virt / 0x100_0000 % 2 == 1
  }

  /** The page a frame belongs to, and the offset of the address in its page. */
  function InPage(pageMask: bv32, frame: bv64, virt: bv32): bv64
    requires LegalPageMask(pageMask)
  {
    if pageMask == 0 then frame / 0x1000 * 0x1000 + (virt as bv64) % 0x1000
    else if pageMask == 0x6000 then frame / 0x4000 * 0x4000 + (virt as bv64) % 0x4000
    else if pageMask == 0x1_E000 then frame / 0x1_0000 * 0x1_0000 + (virt as bv64) % 0x1_0000
    else if pageMask == 0x7_E000 then frame / 0x4_0000 * 0x4_0000 + (virt as bv64) % 0x4_0000
    else if pageMask == 0x1F_E000 then frame / 0x10_0000 * 0x10_0000 + (virt as bv64) % 0x10_0000
    else if pageMask == 0x7F_E000 then frame / 0x40_0000 * 0x40_0000 + (virt as bv64) % 0x40_0000
    else frame / 0x100_0000 * 0x100_0000 + (virt as bv64) % 0x100_0000
  }

  // The fields of EntryLo and EntryHi.
  predicate G(lo: bv32) { lo % 2 == 1 }
  predicate V(lo: bv32) { lo / 2 % 2 == 1 }
  predicate D(lo: bv32) { lo / 4 % 2 == 1 }
  function Pfn(lo: bv32): bv64 { (lo / 64 % 0x100_0000) as bv64 }
  function Space(hi: bv32): bv32 { hi % 256 }

  /** The frame the TLB uses: bit 35 of its address is dropped. */
  function Frame(lo: bv32): bv64 { Below35(Pfn(lo) * 0x1000) }
  function Below35(addr: bv64): bv64 { addr % 0x8_0000_0000 }

  /**
   The registers map the address: it is in the pair EntryHi names, and in its address
   space unless both pages are global.
  */
  predicate Mapped(c: Cp0, virt: bv32, asid: bv32)
    requires LegalPageMask(c.pageMask)
  {
    SamePairOf(c.pageMask, virt, c.entryHi) && ((G(c.entryLo0) && G(c.entryLo1)) || Space(c.entryHi) == asid)
  }

  /** The answer they give, by the EntryLo of the page. */
  function ByLo(c: Cp0, virt: bv32, write: bool): Look
    requires LegalPageMask(c.pageMask)
  {
    var lo := if Second(c.pageMask, virt) then c.entryLo1 else c.entryLo0;
    if !V(lo) then Invalid
    else if write && !D(lo) then Modified
    else Found(InPage(c.pageMask, Frame(lo), virt))
  }

  // ---------- one entry ----------

  // Comparing under a mask is comparing pairs.

  lemma Floor8K(a: bv32)
    ensures Part(a, 0xFFFF_E000) == Pair8K(a) * 0x2000 && Pair8K(Part(a, 0xFFFF_E000)) == Pair8K(a)
  {}

  lemma Compare8K(a: bv32, b: bv32)
    ensures Part(a, 0xFFFF_E000) == Part(b, 0xFFFF_E000) <==> Pair8K(a) == Pair8K(b)
  {
    hide Part, Pair8K;
    Floor8K(a);
    Floor8K(b);
  }

  lemma Floor32K(a: bv32)
    ensures Part(a, 0xFFFF_8000) == Pair32K(a) * 0x8000 && Pair32K(Part(a, 0xFFFF_8000)) == Pair32K(a)
  {}

  lemma Compare32K(a: bv32, b: bv32)
    ensures Part(a, 0xFFFF_8000) == Part(b, 0xFFFF_8000) <==> Pair32K(a) == Pair32K(b)
  {
    hide Part, Pair32K;
    Floor32K(a);
    Floor32K(b);
  }

  lemma Floor128K(a: bv32)
    ensures Part(a, 0xFFFE_0000) == Pair128K(a) * 0x2_0000 && Pair128K(Part(a, 0xFFFE_0000)) == Pair128K(a)
  {}

  lemma Compare128K(a: bv32, b: bv32)
    ensures Part(a, 0xFFFE_0000) == Part(b, 0xFFFE_0000) <==> Pair128K(a) == Pair128K(b)
  {
    hide Part, Pair128K;
    Floor128K(a);
    Floor128K(b);
  }

  lemma Floor512K(a: bv32)
    ensures Part(a, 0xFFF8_0000) == Pair512K(a) * 0x8_0000 && Pair512K(Part(a, 0xFFF8_0000)) == Pair512K(a)
  {}

  lemma Compare512K(a: bv32, b: bv32)
    ensures Part(a, 0xFFF8_0000) == Part(b, 0xFFF8_0000) <==> Pair512K(a) == Pair512K(b)
  {
    hide Part, Pair512K;
    Floor512K(a);
    Floor512K(b);
  }

  lemma Floor2M(a: bv32)
    ensures Part(a, 0xFFE0_0000) == Pair2M(a) * 0x20_0000 && Pair2M(Part(a, 0xFFE0_0000)) == Pair2M(a)
  {}

  lemma Compare2M(a: bv32, b: bv32)
    ensures Part(a, 0xFFE0_0000) == Part(b, 0xFFE0_0000) <==> Pair2M(a) == Pair2M(b)
  {
    hide Part, Pair2M;
    Floor2M(a);
    Floor2M(b);
  }

  lemma Floor8M(a: bv32)
    ensures Part(a, 0xFF80_0000) == Pair8M(a) * 0x80_0000 && Pair8M(Part(a, 0xFF80_0000)) == Pair8M(a)
  {}

  lemma Compare8M(a: bv32, b: bv32)
    ensures Part(a, 0xFF80_0000) == Part(b, 0xFF80_0000) <==> Pair8M(a) == Pair8M(b)
  {
    hide Part, Pair8M;
    Floor8M(a);
    Floor8M(b);
  }

  lemma Floor32M(a: bv32)
    ensures Part(a, 0xFE00_0000) == Pair32M(a) * 0x200_0000 && Pair32M(Part(a, 0xFE00_0000)) == Pair32M(a)
  {}

  lemma Compare32M(a: bv32, b: bv32)
    ensures Part(a, 0xFE00_0000) == Part(b, 0xFE00_0000) <==> Pair32M(a) == Pair32M(b)
  {
    hide Part, Pair32M;
    Floor32M(a);
    Floor32M(b);
  }

  lemma MasksOf(p: bv32)
    requires LegalPageMask(p)
    ensures p == 0 ==> MaskFrom(p) == 0xFFFF_E000
    ensures p == 0x6000 ==> MaskFrom(p) == 0xFFFF_8000
    ensures p == 0x1_E000 ==> MaskFrom(p) == 0xFFFE_0000
    ensures p == 0x7_E000 ==> MaskFrom(p) == 0xFFF8_0000
    ensures p == 0x1F_E000 ==> MaskFrom(p) == 0xFFE0_0000
    ensures p == 0x7F_E000 ==> MaskFrom(p) == 0xFF80_0000
    ensures p == 0x1FF_E000 ==> MaskFrom(p) == 0xFE00_0000
  {}

  lemma PartIsPair(pageMask: bv32, virt: bv32, hi: bv32)
    requires LegalPageMask(pageMask)
    ensures Part(virt, MaskFrom(pageMask)) == Part(hi, MaskFrom(pageMask)) <==> SamePairOf(pageMask, virt, hi)
  {
    hide MaskFrom, Part, Pair8K, Pair32K, Pair128K, Pair512K, Pair2M, Pair8M, Pair32M;
    MasksOf(pageMask);
    Compare8K(virt, hi);
    Compare32K(virt, hi);
    Compare128K(virt, hi);
    Compare512K(virt, hi);
    Compare2M(virt, hi);
    Compare8M(virt, hi);
    Compare32M(virt, hi);
  }

  lemma LoFields(lo: bv32)
    ensures Global(lo) <==> G(lo)
    ensures PageFrom(lo).valid <==> V(lo)
    ensures PageFrom(lo).dirty <==> D(lo)
  {}

  lemma LoFrame(lo: bv32)
    ensures PageFrom(lo).pfn == Pfn(lo) * 0x1000
  {}

  lemma LoFrameBelow35(lo: bv32)
    ensures Below35(PageFrom(lo).pfn) == Frame(lo)
  {
    hide Below35, PageFrom, Pfn;
    LoFrame(lo);
  }

  lemma HiFields(hi: bv32)
    ensures Asid(hi) == Space(hi)
  {}

  /** The entry written from the registers is for exactly the addresses they map. */
  lemma EntryMatches(c: Cp0, virt: bv32, asid: bv32)
    requires LegalPageMask(c.pageMask)
    ensures Matches(EntryFrom(c), virt, asid) <==> Mapped(c, virt, asid)
  {
    hide LegalPageMask, Part, MaskFrom, SamePairOf, Global, G, V, D, Frame, Below35, Asid, Space, PageFrom;
    PartIsPair(c.pageMask, virt, c.entryHi);
    LoFields(c.entryLo0);
    LoFields(c.entryLo1);
    HiFields(c.entryHi);
  }

  lemma SubpageIsSecond(pageMask: bv32, virt: bv32)
    requires LegalPageMask(pageMask)
    ensures InOdd(MaskFrom(pageMask), virt) <==> Second(pageMask, virt)
  {
    if pageMask == 0 {
    } else if pageMask == 0x6000 {
    } else if pageMask == 0x1_E000 {
    } else if pageMask == 0x7_E000 {
    } else if pageMask == 0x1F_E000 {
    } else if pageMask == 0x7F_E000 {
    }
  }

  lemma PhysIsInPage(pageMask: bv32, pfn: bv64, virt: bv32)
    requires LegalPageMask(pageMask) && pfn < 0x10_0000_0000
    ensures PhysOf(MaskFrom(pageMask), pfn, virt) == InPage(pageMask, Below35(pfn), virt)
  {
    if pageMask == 0 {
    } else if pageMask == 0x6000 {
    } else if pageMask == 0x1_E000 {
    } else if pageMask == 0x7_E000 {
    } else if pageMask == 0x1F_E000 {
    } else if pageMask == 0x7F_E000 {
    }
  }

  /** And it answers as they say. */
  lemma EntryAnswers(c: Cp0, virt: bv32, write: bool)
    requires LegalPageMask(c.pageMask)
    ensures Verdict(EntryFrom(c), virt, write) == ByLo(c, virt, write)
  {
    hide LegalPageMask, Part, MaskFrom, Second, InOdd, PhysOf, InPage, Global, G, V, D, Frame, Below35, Asid, PageFrom;
    SubpageIsSecond(c.pageMask, virt);
    LoFields(c.entryLo0);
    LoFields(c.entryLo1);
    FrameFits(c.entryLo0);
    FrameFits(c.entryLo1);
    LoFrameBelow35(c.entryLo0);
    LoFrameBelow35(c.entryLo1);
    PhysIsInPage(c.pageMask, PageFrom(c.entryLo0).pfn, virt);
    PhysIsInPage(c.pageMask, PageFrom(c.entryLo1).pfn, virt);
  }

  // ---------- the whole TLB ----------

  /** Nothing is found exactly when no entry matches. */
  lemma RefillIff(tlb: seq<Entry>, hint: nat, virt: bv32, asid: bv32, write: bool)
    requires |tlb| == ENTRIES
    ensures LookFrom(tlb, hint, virt, asid, write) == Refill <==>
            forall i :: 0 <= i < ENTRIES ==> !Matches(tlb[i], virt, asid)
  {
    hide Matches, Slot, InOdd, PhysOf;
    var k := FirstFrom(tlb, hint, 0, virt, asid);
    if k == ENTRIES {
      forall i | 0 <= i < ENTRIES ensures !Matches(tlb[i], virt, asid) {
        var j := RotationReaches(hint, i);
        assert !Hit(tlb, hint, j, virt, asid);
      }
    } else {
      assert Matches(tlb[Slot(hint, k)], virt, asid);
    }
  }

  /** The only entry that matches is found, from every hint. */
  lemma OnlyMatchFound(tlb: seq<Entry>, hint: nat, virt: bv32, asid: bv32, write: bool, i: nat)
    requires |tlb| == ENTRIES && i < ENTRIES && Matches(tlb[i], virt, asid)
    requires forall j :: 0 <= j < ENTRIES && j != i ==> !Matches(tlb[j], virt, asid)
    ensures LookFrom(tlb, hint, virt, asid, write) == Verdict(tlb[i], virt, write)
  {
    hide Matches, Verdict, Slot;
    var k := FirstFrom(tlb, hint, 0, virt, asid);
    var j := RotationReaches(hint, i);
    assert Hit(tlb, hint, j, virt, asid);
    assert Matches(tlb[Slot(hint, k)], virt, asid);
  }

  /**
   After a miss: an entry written from the registers, wherever it is put,
   answers by its EntryLo exactly for the addresses and address spaces the
   registers map; what it does not map is still missing.
  */
  lemma WriteThenLookup(cpu: Cpu, index: nat, was: nat, hint: nat, virt: bv32, asid: bv32, miss: bool, write: bool)
    requires |cpu.tlb| == ENTRIES && index < ENTRIES && LegalPageMask(cpu.cp0.pageMask)
    requires LookFrom(cpu.tlb, was, virt, asid, miss) == Refill
    ensures |WriteAt(cpu, index).tlb| == ENTRIES
    ensures LookFrom(WriteAt(cpu, index).tlb, hint, virt, asid, write) ==
            if Mapped(cpu.cp0, virt, asid) then ByLo(cpu.cp0, virt, write) else Refill
  {
    hide Matches, Verdict, LookFrom, LegalPageMask, Mapped, ByLo, EntryFrom;
    RefillIff(cpu.tlb, was, virt, asid, miss);
    EntryMatches(cpu.cp0, virt, asid);
    EntryAnswers(cpu.cp0, virt, write);
    var after := WriteAt(cpu, index).tlb;
    if Mapped(cpu.cp0, virt, asid) {
      OnlyMatchFound(after, hint, virt, asid, write, index);
    } else {
      RefillIff(after, hint, virt, asid, write);
    }
  }

  /** Each entry is the one software would write from these registers. */
  ghost predicate WrittenFrom(tlb: seq<Entry>, regs: seq<Cp0>) {
    && |tlb| == ENTRIES && |regs| == ENTRIES
    && (forall k :: 0 <= k < ENTRIES ==> LegalPageMask(regs[k].pageMask))
    && (forall k :: 0 <= k < ENTRIES ==> WriteAt(Cpu(tlb, regs[k]), k).tlb == tlb)
  }

  lemma EntryIs(tlb: seq<Entry>, regs: seq<Cp0>, k: nat)
    requires WrittenFrom(tlb, regs) && k < ENTRIES
    ensures tlb[k] == EntryFrom(regs[k])
  {
    hide EntryFrom, LegalPageMask;
    assert WriteAt(Cpu(tlb, regs[k]), k).tlb[k] == EntryFrom(regs[k]);
  }

  ghost predicate SomeMapped(regs: seq<Cp0>, virt: bv32, asid: bv32)
    requires forall k :: 0 <= k < |regs| ==> LegalPageMask(regs[k].pageMask)
  {
    exists k :: 0 <= k < |regs| && Mapped(regs[k], virt, asid)
  }

  /** Registers k, and no others, map the address. */
  ghost predicate AloneMapped(regs: seq<Cp0>, virt: bv32, asid: bv32, k: nat)
    requires k < |regs| && forall i :: 0 <= i < |regs| ==> LegalPageMask(regs[i].pageMask)
  {
    Mapped(regs[k], virt, asid) && forall j :: 0 <= j < |regs| && j != k ==> !Mapped(regs[j], virt, asid)
  }

  /**
   What a TLB translates, by the registers its entries were written from: a miss, or
   the answer of the one that maps.
  */
  lemma LookupByRegisters(tlb: seq<Entry>, regs: seq<Cp0>, hint: nat, virt: bv32, asid: bv32, write: bool)
    requires WrittenFrom(tlb, regs)
    ensures LookFrom(tlb, hint, virt, asid, write) == Refill <==> !SomeMapped(regs, virt, asid)
    ensures forall k :: 0 <= k < ENTRIES && AloneMapped(regs, virt, asid, k) ==>
              LookFrom(tlb, hint, virt, asid, write) == ByLo(regs[k], virt, write)
  {
    hide Matches, Verdict, LookFrom, Mapped, ByLo, EntryFrom, LegalPageMask, WriteAt;
    forall k | 0 <= k < ENTRIES
      ensures Matches(tlb[k], virt, asid) <==> Mapped(regs[k], virt, asid)
      ensures Verdict(tlb[k], virt, write) == ByLo(regs[k], virt, write)
    {
      EntryIs(tlb, regs, k);
      EntryMatches(regs[k], virt, asid);
      EntryAnswers(regs[k], virt, write);
    }
    RefillIff(tlb, hint, virt, asid, write);
    forall k | 0 <= k < ENTRIES && AloneMapped(regs, virt, asid, k)
      ensures LookFrom(tlb, hint, virt, asid, write) == ByLo(regs[k], virt, write)
    {
      OnlyMatchFound(tlb, hint, virt, asid, write, k);
    }
  }

  /** A probe finds the first entry that maps the pair in EntryHi for its address space. */
  lemma ProbeByRegisters(tlb: seq<Entry>, regs: seq<Cp0>, hi: bv32)
    requires WrittenFrom(tlb, regs)
    ensures var k := Probe(tlb, hi);
            && k <= ENTRIES && (k < ENTRIES ==> Mapped(regs[k], hi, Space(hi)))
            && forall j :: 0 <= j < k ==> !Mapped(regs[j], hi, Space(hi))
  {
    hide Hit, Mapped, LegalPageMask, WriteAt, Asid, Space, Part;
    forall k | 0 <= k < ENTRIES
      ensures Hit(tlb, 0, k, Part(hi, VPN2), Asid(hi)) <==> Mapped(regs[k], hi, Space(hi))
    {
      ProbeHits(tlb, regs, hi, k);
    }
  }

  lemma ProbeHits(tlb: seq<Entry>, regs: seq<Cp0>, hi: bv32, k: nat)
    requires WrittenFrom(tlb, regs) && k < ENTRIES
    ensures Hit(tlb, 0, k, Part(hi, VPN2), Asid(hi)) <==> Mapped(regs[k], hi, Space(hi))
  {
    hide Matches, Mapped, EntryFrom, LegalPageMask, WriteAt, Asid, Space, Slot, Part;
    HiFields(hi);
    EntryIs(tlb, regs, k);
    EntryMatches(regs[k], Part(hi, VPN2), Asid(hi));
    PairBase(regs[k], hi);
    SlotZero(k);
  }

  /** Bits below the smallest pair make no difference. */
  lemma PairBase(c: Cp0, hi: bv32)
    requires LegalPageMask(c.pageMask)
    ensures Mapped(c, Part(hi, VPN2), Space(hi)) <==> Mapped(c, hi, Space(hi))
  {
    hide LegalPageMask, SamePairOf, Part, MaskFrom, G, Space;
    PartIsPair(c.pageMask, Part(hi, VPN2), c.entryHi);
    PartIsPair(c.pageMask, hi, c.entryHi);
    PartOfPart(c.pageMask, hi);
  }

  lemma PartOfPart(pageMask: bv32, hi: bv32)
    ensures Part(Part(hi, VPN2), MaskFrom(pageMask)) == Part(hi, MaskFrom(pageMask))
  {}
}
