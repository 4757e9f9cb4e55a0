/**
 The joint TLB of the R4000: lookup from a rotating hint, probe, read and
 write, and the Random and Wired registers.
*/
module R4kTlb {
  const ENTRIES: nat := 48
  const VPN2: bv32 := 0xFFFF_E000
  const PHYS: bv64 := 0x7_8000_0000

  /** A subpage; `pfn` is shifted into place. */
  datatype Page = Page(pfn: bv64, cohh: bv32, dirty: bool, valid: bool)

  datatype Entry = Entry(mask: bv32, vpn2: bv32, global: bool, asid: bv32, even: Page, odd: Page)

  datatype Look = Refill | Invalid | Modified | Found(phys: bv64)

  /** The part of an address a mask looks at. */
  function Part(virt: bv32, mask: bv32): bv32 { virt & mask }

  predicate Matches(e: Entry, virt: bv32, asid: bv32) {
    Part(virt, e.mask) == e.vpn2 && (e.global || e.asid == asid)
  }

  function SubMask(mask: bv32): bv64 { ((mask >> 1) as bv64) | PHYS }

  /** Which of the two pages of an entry an address is in. */
  predicate InOdd(mask: bv32, virt: bv32) { (virt & mask) as bv64 < (virt as bv64) & SubMask(mask) }

  function PhysOf(mask: bv32, pfn: bv64, virt: bv32): bv64 { ((virt as bv64) & !SubMask(mask)) | (pfn & SubMask(mask)) }

  /** What a matching entry says about an access. */
  function Verdict(e: Entry, virt: bv32, write: bool): Look {
    var page := if InOdd(e.mask, virt) then e.odd else e.even;
    if !page.valid then Invalid
    else if write && !page.dirty then Modified
    else Found(PhysOf(e.mask, page.pfn, virt))
  }

  // ---------- the hint makes no difference ----------

  /** The entry looked at k places after the hint. */
  function Slot(hint: nat, k: nat): (i: nat)
    ensures i < ENTRIES
  {
    (k + hint) % 48
  }

  predicate Hit(tlb: seq<Entry>, hint: nat, k: nat, virt: bv32, asid: bv32)
    requires |tlb| == ENTRIES
  {
    Matches(tlb[Slot(hint, k)], virt, asid)
  }

  /** The first match from this many places after the hint, or the number of entries. */
  function FirstFrom(tlb: seq<Entry>, hint: nat, i: nat, virt: bv32, asid: bv32): (k: nat)
    requires |tlb| == ENTRIES && i <= ENTRIES
    ensures i <= k <= ENTRIES
    ensures k < ENTRIES ==> Hit(tlb, hint, k, virt, asid)
    ensures forall j :: i <= j < k ==> !Hit(tlb, hint, j, virt, asid)
    decreases ENTRIES - i
  {
    if i == ENTRIES || Hit(tlb, hint, i, virt, asid) then i else FirstFrom(tlb, hint, i + 1, virt, asid)
  }

  /** `tlb_look` from a hint. */
  function LookFrom(tlb: seq<Entry>, hint: nat, virt: bv32, asid: bv32, write: bool): Look
    requires |tlb| == ENTRIES
  {
    var k := FirstFrom(tlb, hint, 0, virt, asid);
    if k == ENTRIES then Refill else Verdict(tlb[Slot(hint, k)], virt, write)
  }

  /** At most one entry maps the address. */
  ghost predicate Unambiguous(tlb: seq<Entry>, virt: bv32, asid: bv32) {
    forall i, j :: 0 <= i < |tlb| && 0 <= j < |tlb| && Matches(tlb[i], virt, asid) && Matches(tlb[j], virt, asid) ==>
      i == j
  }

  lemma RotationReaches(hint: nat, i: nat) returns (j: nat)
    requires i < ENTRIES
    ensures j < ENTRIES && Slot(hint, j) == i
  {
    var h, q := hint % 48, hint / 48;
    j := if i >= h then i - h else i + 48 - h;
    var r := if i >= h then q else q + 1;
    assert j + hint == 48 * r + i;
  }

  /** The entries that match give the same answer. */
  ghost predicate Agreed(tlb: seq<Entry>, virt: bv32, asid: bv32, write: bool) {
    forall i, j :: 0 <= i < |tlb| && 0 <= j < |tlb| && Matches(tlb[i], virt, asid) && Matches(tlb[j], virt, asid) ==>
      Verdict(tlb[i], virt, write) == Verdict(tlb[j], virt, write)
  }

  lemma HintIrrelevant(tlb: seq<Entry>, hint: nat, virt: bv32, asid: bv32, write: bool)
    requires |tlb| == ENTRIES && Agreed(tlb, virt, asid, write)
    ensures LookFrom(tlb, hint, virt, asid, write) == LookFrom(tlb, 0, virt, asid, write)
  {
    hide Matches, Verdict, FirstFrom, Slot;
    var k := FirstFrom(tlb, hint, 0, virt, asid);
    var n := FirstFrom(tlb, 0, 0, virt, asid);
    if n < ENTRIES {
      var j := RotationReaches(hint, Slot(0, n));
      assert Hit(tlb, hint, j, virt, asid);
    }
    if k < ENTRIES {
      var i := RotationReaches(0, Slot(hint, k));
      assert Hit(tlb, 0, i, virt, asid);
    }
  }

  /** Starting the search at a matching entry finds that entry. */
  lemma HintFinds(tlb: seq<Entry>, i: nat, virt: bv32, asid: bv32, write: bool)
    requires |tlb| == ENTRIES && i < ENTRIES && Matches(tlb[i], virt, asid)
    ensures LookFrom(tlb, i, virt, asid, write) == Verdict(tlb[i], virt, write)
  {
    hide Matches, Verdict;
    assert Slot(i, 0) == i;
  }

  /** The hint never matters exactly when all matching entries agree; with one match they do. */
  lemma HintIrrelevantIff(tlb: seq<Entry>, virt: bv32, asid: bv32, write: bool)
    requires |tlb| == ENTRIES
    ensures Agreed(tlb, virt, asid, write) <==>
            forall hint: nat :: LookFrom(tlb, hint, virt, asid, write) == LookFrom(tlb, 0, virt, asid, write)
    ensures Unambiguous(tlb, virt, asid) ==> Agreed(tlb, virt, asid, write)
  {
    hide Matches, Verdict, LookFrom;
    if Agreed(tlb, virt, asid, write) {
      forall hint: nat ensures LookFrom(tlb, hint, virt, asid, write) == LookFrom(tlb, 0, virt, asid, write) {
        HintIrrelevant(tlb, hint, virt, asid, write);
      }
    } else {
      var i, j :| 0 <= i < |tlb| && 0 <= j < |tlb| && Matches(tlb[i], virt, asid) && Matches(tlb[j], virt, asid)
               && Verdict(tlb[i], virt, write) != Verdict(tlb[j], virt, write);
      HintFinds(tlb, i, virt, asid, write);
      HintFinds(tlb, j, virt, asid, write);
    }
  }

  // ---------- what a translation means ----------

  /** The masks the seven legal page sizes give. */
  predicate LegalMask(mask: bv32) {
    mask == 0xFFFF_E000 || mask == 0xFFFF_8000 || mask == 0xFFFE_0000 || mask == 0xFFF8_0000 ||
    mask == 0xFFE0_0000 || mask == 0xFF80_0000 || mask == 0xFE00_0000
  }

  /** The upper half of the pair of pages. */
  predicate UpperHalf(mask: bv32, virt: bv32)
    requires LegalMask(mask)
  {
    if mask == 0xFFFF_E000 then virt / 0x1000 % 2 == 1
    else if mask == 0xFFFF_8000 then virt / 0x4000 % 2 == 1
    else if mask == 0xFFFE_0000 then virt / 0x1_0000 % 2 == 1
    else if mask == 0xFFF8_0000 then virt / 0x4_0000 % 2 == 1
    else if mask == 0xFFE0_0000 then virt / 0x10_0000 % 2 == 1
    else if mask == 0xFF80_0000 then virt / 0x40_0000 % 2 == 1
    else virt / 0x100_0000 % 2 == 1
  }

  lemma OddIsUpperHalf(mask: bv32, virt: bv32)
    requires LegalMask(mask)
    ensures InOdd(mask, virt) <==> UpperHalf(mask, virt)
  {
    if mask == 0xFFFF_E000 {
    } else if mask == 0xFFFF_8000 {
    } else if mask == 0xFFFE_0000 {
    } else if mask == 0xFFF8_0000 {
    } else if mask == 0xFFE0_0000 {
    } else if mask == 0xFF80_0000 {
    }
  }

  /** Page number times page size plus offset: the address the frame number and the virtual address stand for. */
  function FrameAndOffset(mask: bv32, pfn: bv64, virt: bv32): bv64
    requires LegalMask(mask)
  {
    if mask == 0xFFFF_E000 then pfn / 0x1000 * 0x1000 + (virt as bv64) % 0x1000
    else if mask == 0xFFFF_8000 then pfn / 0x4000 * 0x4000 + (virt as bv64) % 0x4000
    else if mask == 0xFFFE_0000 then pfn / 0x1_0000 * 0x1_0000 + (virt as bv64) % 0x1_0000
    else if mask == 0xFFF8_0000 then pfn / 0x4_0000 * 0x4_0000 + (virt as bv64) % 0x4_0000
    else if mask == 0xFFE0_0000 then pfn / 0x10_0000 * 0x10_0000 + (virt as bv64) % 0x10_0000
    else if mask == 0xFF80_0000 then pfn / 0x40_0000 * 0x40_0000 + (virt as bv64) % 0x40_0000
    else pfn / 0x100_0000 * 0x100_0000 + (virt as bv64) % 0x100_0000
  }

  /**
   The translation is frame and offset exactly when bit 35 of the frame is
   clear: the mask of physical bits stops one short of the 36-bit space.
  */
  lemma PhysIsFrameAndOffsetIff(mask: bv32, pfn: bv64, virt: bv32)
    requires LegalMask(mask) && pfn < 0x10_0000_0000
    ensures PhysOf(mask, pfn, virt) == FrameAndOffset(mask, pfn, virt) <==> pfn < 0x8_0000_0000
  {
    if mask == 0xFFFF_E000 {
    } else if mask == 0xFFFF_8000 {
    } else if mask == 0xFFFE_0000 {
    } else if mask == 0xFFF8_0000 {
    } else if mask == 0xFFE0_0000 {
    } else if mask == 0xFF80_0000 {
    }
  }

  /** The topmost page of the 36-bit space: the address found lacks bit 35. */
  lemma TopPageMissed()
    ensures PhysOf(0xFFFF_E000, 0xF_FFFF_F000, 0x123) == 0x7_FFFF_F123
    ensures FrameAndOffset(0xFFFF_E000, 0xF_FFFF_F000, 0x123) == 0xF_FFFF_F123
  {}

  /** What an entry says about an access, in terms of pages and offsets. */
  function Meaning(e: Entry, virt: bv32, write: bool): Look
    requires LegalMask(e.mask)
  {
    var page := if UpperHalf(e.mask, virt) then e.odd else e.even;
    if !page.valid then Invalid
    else if write && !page.dirty then Modified
    else Found(FrameAndOffset(e.mask, page.pfn, virt))
  }

  /** With frames below bit 35 the verdict is the meaning. */
  lemma VerdictIsMeaning(e: Entry, virt: bv32, write: bool)
    requires LegalMask(e.mask) && e.even.pfn < 0x8_0000_0000 && e.odd.pfn < 0x8_0000_0000
    ensures Verdict(e, virt, write) == Meaning(e, virt, write)
  {
    hide LegalMask, UpperHalf, FrameAndOffset, InOdd, PhysOf;
    OddIsUpperHalf(e.mask, virt);
    LowFrame(e.even.pfn);
    LowFrame(e.odd.pfn);
    PhysIsFrameAndOffsetIff(e.mask, e.even.pfn, virt);
    PhysIsFrameAndOffsetIff(e.mask, e.odd.pfn, virt);
  }

  lemma LowFrame(pfn: bv64)
    requires pfn < 0x8_0000_0000
    ensures pfn < 0x10_0000_0000
  {}

  // ---------- probe, read, write ----------

  /** The CP0 registers the TLB instructions work on; `missed` is the P bit of Index. */
  datatype Cp0 = Cp0(index: nat, missed: bool, random: nat, wired: nat,
                     pageMask: bv32, entryHi: bv32, entryLo0: bv32, entryLo1: bv32)

  datatype Cpu = Cpu(tlb: seq<Entry>, cp0: Cp0)

  function Asid(entryHi: bv32): bv32 { entryHi & 0xFF }

  /** `TLBP`: the first entry that maps the address in EntryHi, or the number of entries for none. */
  function Probe(tlb: seq<Entry>, entryHi: bv32): nat
    requires |tlb| == ENTRIES
  {
    FirstFrom(tlb, 0, 0, Part(entryHi, VPN2), Asid(entryHi))
  }

  /** Index after a probe; a miss sets only the P bit, so the index itself reads as 0. */
  function Probed(c: Cp0, found: nat): Cp0 {
    c.(index := if found == ENTRIES then 0 else found, missed := found == ENTRIES)
  }

  /** No entry looks at bits below the smallest pair of pages. */
  ghost predicate Masked(tlb: seq<Entry>) { forall i :: 0 <= i < |tlb| ==> Above(tlb[i].mask) }

  predicate Above(mask: bv32) { mask & !VPN2 == 0 }

  lemma SamePair(mask: bv32, virt: bv32, entryHi: bv32)
    requires Above(mask) && Part(virt, VPN2) == Part(entryHi, VPN2)
    ensures Part(virt, mask) == Part(Part(entryHi, VPN2), mask)
  {}

  /** A probe finds the entry a lookup in the same pair of pages would use, whatever the hint. */
  lemma ProbeFindsSame(tlb: seq<Entry>, hint: nat, virt: bv32, entryHi: bv32)
    requires |tlb| == ENTRIES && Masked(tlb) && Part(virt, VPN2) == Part(entryHi, VPN2)
    requires Unambiguous(tlb, virt, Asid(entryHi))
    ensures var k := FirstFrom(tlb, hint, 0, virt, Asid(entryHi));
            Probe(tlb, entryHi) == if k == ENTRIES then ENTRIES else Slot(hint, k)
  {
    hide Matches, FirstFrom, Slot, Part, Asid, Above;
    var asid := Asid(entryHi);
    var k := FirstFrom(tlb, hint, 0, virt, asid);
    var n := Probe(tlb, entryHi);
    forall i | 0 <= i < ENTRIES ensures Matches(tlb[i], virt, asid) == Matches(tlb[i], Part(entryHi, VPN2), asid) {
      SameMatch(tlb, i, virt, entryHi);
    }
    forall i | 0 <= i < ENTRIES ensures Slot(0, i) == i { SlotZero(i); }
    if n < ENTRIES {
      var j := RotationReaches(hint, n);
      assert Hit(tlb, hint, j, virt, asid);
    }
    if k < ENTRIES {
      assert Hit(tlb, 0, Slot(hint, k), Part(entryHi, VPN2), asid);
    }
  }

  lemma SlotZero(i: nat)
    requires i < ENTRIES
    ensures Slot(0, i) == i
  {}

  lemma SameMatch(tlb: seq<Entry>, i: nat, virt: bv32, entryHi: bv32)
    requires |tlb| == ENTRIES && Masked(tlb) && Part(virt, VPN2) == Part(entryHi, VPN2) && i < ENTRIES
    ensures Matches(tlb[i], virt, Asid(entryHi)) == Matches(tlb[i], Part(entryHi, VPN2), Asid(entryHi))
  {
    hide Part, Asid, Above;
    SamePair(tlb[i].mask, virt, entryHi);
  }

  function PageFrom(lo: bv32): Page {
    Page((((lo & 0x3FFF_FFC0) >> 6) as bv64) << 12, (lo & 0x38) >> 3, lo & 4 != 0, lo & 2 != 0)
  }

  function MaskFrom(pageMask: bv32): bv32 { VPN2 & !pageMask }

  predicate Global(lo: bv32) { lo & 1 != 0 }

  function EntryFrom(c: Cp0): Entry {
    var mask := MaskFrom(c.pageMask);
    Entry(mask, Part(c.entryHi, mask), Global(c.entryLo0) && Global(c.entryLo1), Asid(c.entryHi),
          PageFrom(c.entryLo0), PageFrom(c.entryLo1))
  }

  /** `TLBWR` and `TLBWI`; an index out of range writes nothing. */
  function WriteAt(cpu: Cpu, index: nat): Cpu {
    if index < ENTRIES && index < |cpu.tlb| then cpu.(tlb := cpu.tlb[index := EntryFrom(cpu.cp0)]) else cpu
  }

  function LoFrom(p: Page, global: bool): bv32 {
    (((p.pfn >> 6) & 0xFFFF_FFFF) as bv32) | (p.cohh << 3) |
    (if p.dirty then 4 else 0) | (if p.valid then 2 else 0) | (if global then 1 else 0)
  }

  function PageMaskOf(mask: bv32): bv32 { !mask & 0x01FF_E000 }

  function HiFrom(vpn2: bv32, asid: bv32): bv32 { vpn2 | asid }

  /** `TLBR` of an entry. */
  function ReadInto(c: Cp0, e: Entry): Cp0 {
    c.(pageMask := PageMaskOf(e.mask),
       entryHi := HiFrom(e.vpn2, e.asid),
       entryLo0 := LoFrom(e.even, e.global),
       entryLo1 := LoFrom(e.odd, e.global))
  }

  function ReadAt(cpu: Cpu, index: nat): Cpu {
    if index < ENTRIES && index < |cpu.tlb| then cpu.(cp0 := ReadInto(cpu.cp0, cpu.tlb[index]))
    else cpu.(cp0 := cpu.cp0.(pageMask := 0, entryHi := 0, entryLo0 := 0, entryLo1 := 0))
  }

  /** EntryLo as the TLB keeps it: 30 bits, with the common G bit. */
  function LoKept(lo: bv32, global: bool): bv32 { (lo & 0x3FFF_FFFE) | (if global then 1 else 0) }

  lemma LoRoundTrip(lo: bv32, global: bool)
    ensures LoFrom(PageFrom(lo), global) == LoKept(lo, global)
  {
    LoBits(lo);
  }

  lemma LoBits(lo: bv32)
    ensures ((((((lo & 0x3FFF_FFC0) >> 6) as bv64) << 12 >> 6) & 0xFFFF_FFFF) as bv32)
            | (((lo & 0x38) >> 3) << 3) | (if lo & 4 != 0 then 4 else 0) | (if lo & 2 != 0 then 2 else 0) ==
            lo & 0x3FFF_FFFE
  {}

  /** The bits of PageMask the TLB keeps, and of EntryHi: the page number above the mask and the identifier. */
  function SizeKept(pageMask: bv32): bv32 { pageMask & 0x01FF_E000 }
  function HiKept(entryHi: bv32, pageMask: bv32): bv32 { entryHi & ((VPN2 & !pageMask) | 0xFF) }

  /** Writing an entry and reading it back: what software wrote, up to the bits the TLB does not keep. */
  lemma WriteThenRead(cpu: Cpu, index: nat)
    requires |cpu.tlb| == ENTRIES && index < ENTRIES
    ensures var c, r := cpu.cp0, ReadAt(WriteAt(cpu, index), index).cp0;
            var global := Global(c.entryLo0) && Global(c.entryLo1);
            && r.pageMask == SizeKept(c.pageMask) && r.entryHi == HiKept(c.entryHi, c.pageMask)
            && r.entryLo0 == LoKept(c.entryLo0, global) && r.entryLo1 == LoKept(c.entryLo1, global)
  {
    hide LoFrom, PageFrom, LoKept, MaskFrom, Part, Asid, Global, PageMaskOf, HiFrom, SizeKept, HiKept;
    var c := cpu.cp0;
    var global := Global(c.entryLo0) && Global(c.entryLo1);
    LoRoundTrip(c.entryLo0, global);
    LoRoundTrip(c.entryLo1, global);
    MaskRoundTrip(c.pageMask, c.entryHi);
  }

  lemma MaskRoundTrip(pageMask: bv32, entryHi: bv32)
    ensures PageMaskOf(MaskFrom(pageMask)) == SizeKept(pageMask)
    ensures HiFrom(Part(entryHi, MaskFrom(pageMask)), Asid(entryHi)) == HiKept(entryHi, pageMask)
  {}

  /** So after a miss TLBWI overwrites entry 0. */
  lemma WriteAfterMiss(cpu: Cpu)
    requires |cpu.tlb| == ENTRIES && Probe(cpu.tlb, cpu.cp0.entryHi) == ENTRIES
    ensures var missed := Execute(cpu, ProbeEntry);
            missed.cp0.missed && Execute(missed, WriteIndexed).tlb == cpu.tlb[0 := EntryFrom(missed.cp0)]
  {
    hide EntryFrom, Probe;
  }

  // ---------- Random and Wired ----------

  /** What `manage` does to Random after every instruction. */
  function Manage(c: Cp0): Cp0 {
    var r := if c.random == 0 then 47 else c.random - 1;
    c.(random := if r < c.wired then 47 else r)
  }

  /** The instructions that touch the TLB registers; MTC0 also to Wired, with only its low six bits. */
  datatype Instr =
    | MoveToWired(value: nat)
    | MoveToEntry(pageMask: bv32, entryHi: bv32, entryLo0: bv32, entryLo1: bv32)
    | MoveToIndex(value: nat)
    | WriteRandom
    | WriteIndexed
    | ReadIndexed
    | ProbeEntry
    | Other

  function Execute(cpu: Cpu, i: Instr): Cpu
    requires |cpu.tlb| == ENTRIES
  {
    var c := cpu.cp0;
    match i
    case MoveToWired(v) => cpu.(cp0 := c.(random := 47, wired := v % 64))
    case MoveToEntry(p, h, l0, l1) => cpu.(cp0 := c.(pageMask := p, entryHi := h, entryLo0 := l0, entryLo1 := l1))
    case MoveToIndex(v) => cpu.(cp0 := c.(index := v % 64, missed := false))
    case WriteRandom => WriteAt(cpu, c.random)
    case WriteIndexed => WriteAt(cpu, c.index)
    case ReadIndexed => ReadAt(cpu, c.index)
    case ProbeEntry => cpu.(cp0 := Probed(c, Probe(cpu.tlb, c.entryHi)))
    case Other => cpu
  }

  function Step(cpu: Cpu, i: Instr): Cpu
    requires |cpu.tlb| == ENTRIES
  {
    var d := Execute(cpu, i);
    d.(cp0 := Manage(d.cp0))
  }

  /** What every run keeps; a Wired beyond the last entry pins Random to the last entry. */
  ghost predicate Inv(cpu: Cpu) {
    && |cpu.tlb| == ENTRIES && Masked(cpu.tlb)
    && cpu.cp0.random <= 47 && cpu.cp0.wired < 64
    && (cpu.cp0.wired <= cpu.cp0.random || (cpu.cp0.wired > 47 && cpu.cp0.random == 47))
  }

  /** The page sizes MTC0 lets into PageMask. */
  predicate LegalPageMask(p: bv32) {
    p == 0 || p == 0x6000 || p == 0x1_E000 || p == 0x7_E000 || p == 0x1F_E000 || p == 0x7F_E000 || p == 0x1FF_E000
  }

  /** They give the legal masks, and every frame is a 36-bit address. */
  lemma EntryIsLegal(c: Cp0)
    requires LegalPageMask(c.pageMask)
    ensures LegalMask(EntryFrom(c).mask)
    ensures EntryFrom(c).even.pfn < 0x10_0000_0000 && EntryFrom(c).odd.pfn < 0x10_0000_0000
  {
    MaskIsLegal(c.pageMask);
    FrameFits(c.entryLo0);
    FrameFits(c.entryLo1);
    hide LegalMask, LegalPageMask;
  }

  lemma MaskIsLegal(p: bv32)
    requires LegalPageMask(p)
    ensures LegalMask(VPN2 & !p)
  {}

  lemma FrameFits(lo: bv32)
    ensures PageFrom(lo).pfn < 0x10_0000_0000
  {}

  lemma EntryIsMasked(c: Cp0)
    ensures Above(EntryFrom(c).mask)
  {}

  lemma ExecuteKeeps(cpu: Cpu, i: Instr)
    requires Inv(cpu)
    ensures Inv(Execute(cpu, i))
  {
    hide Above, EntryFrom, ReadInto, Probe;
    EntryIsMasked(cpu.cp0);
    if i == ReadIndexed && cpu.cp0.index < ENTRIES {
      ReadKeepsOthers(cpu.cp0, cpu.tlb[cpu.cp0.index]);
    }
  }

  /** Random counts down to Wired and then starts again from the last entry. */
  lemma ManageKeeps(cpu: Cpu)
    requires Inv(cpu)
    ensures Inv(cpu.(cp0 := Manage(cpu.cp0)))
    ensures Manage(cpu.cp0) == cpu.cp0.(random := if cpu.cp0.random > cpu.cp0.wired then cpu.cp0.random - 1 else 47)
  {
    hide Masked;
  }

  lemma StepKeeps(cpu: Cpu, i: Instr)
    requires Inv(cpu)
    ensures Inv(Step(cpu, i))
  {
    hide Inv, Execute, Manage;
    InvLength(cpu);
    ExecuteKeeps(cpu, i);
    ManageKeeps(Execute(cpu, i));
  }

  lemma InvLength(cpu: Cpu)
    requires Inv(cpu)
    ensures |cpu.tlb| == ENTRIES
  {}

  lemma ReadKeepsOthers(c: Cp0, e: Entry)
    ensures ReadInto(c, e).random == c.random && ReadInto(c, e).wired == c.wired
  {
    hide LoFrom;
  }

  /** TLBWR stays clear of the wired entries exactly when Wired is at most 47. */
  lemma RandomAboveWiredIff(cpu: Cpu)
    requires Inv(cpu)
    ensures cpu.cp0.random < ENTRIES
    ensures cpu.cp0.random >= cpu.cp0.wired <==> cpu.cp0.wired <= 47
  {
    hide Masked;
  }

  lemma SameEntry(c: Cp0, random: nat, wired: nat)
    ensures EntryFrom(c.(random := random, wired := wired)) == EntryFrom(c)
  {}

  /** With all 48 entries wired, TLBWR replaces the last of them. */
  lemma WiredOverwritten(cpu: Cpu)
    requires Inv(cpu)
    ensures var r := Execute(Execute(cpu, MoveToWired(48)), WriteRandom);
            r.cp0.wired == 48 && r.tlb == cpu.tlb[47 := EntryFrom(cpu.cp0)]
  {
    hide EntryFrom, Masked;
    SameEntry(cpu.cp0, 47, 48);
  }

  ghost function Run(cpu: Cpu, instrs: seq<Instr>): (r: Cpu)
    requires Inv(cpu)
    ensures Inv(r)
    decreases |instrs|
  {
    StepKeeps(cpu, if instrs == [] then Other else instrs[0]);
    if instrs == [] then cpu else Run(Step(cpu, instrs[0]), instrs[1..])
  }

  /** Entry k is wired all along the run, Wired stays in range, and no TLBWI aims at k. */
  ghost predicate Guarded(cpu: Cpu, instrs: seq<Instr>, k: nat)
    requires Inv(cpu)
    decreases |instrs|
  {
    instrs != [] ==>
      && k < cpu.cp0.wired <= 47
      && !(instrs[0] == WriteIndexed && cpu.cp0.index == k)
      && (StepKeeps(cpu, instrs[0]); Guarded(Step(cpu, instrs[0]), instrs[1..], k))
  }

  lemma GuardedStep(cpu: Cpu, i: Instr, k: nat)
    requires Inv(cpu) && k < cpu.cp0.wired <= 47 && !(i == WriteIndexed && cpu.cp0.index == k)
    ensures Step(cpu, i).tlb[k] == cpu.tlb[k]
  {
    hide Masked, EntryFrom, ReadInto, Probe;
  }

  /** Over a whole run no TLBWR touches a wired entry. */
  lemma {:induction false} WiredEntriesSafe(cpu: Cpu, instrs: seq<Instr>, k: nat)
    requires Inv(cpu) && k < ENTRIES && Guarded(cpu, instrs, k)
    ensures Run(cpu, instrs).tlb[k] == cpu.tlb[k]
    decreases |instrs|
  {
    hide Masked, Step;
    if instrs != [] {
      StepKeeps(cpu, instrs[0]);
      GuardedStep(cpu, instrs[0], k);
      WiredEntriesSafe(Step(cpu, instrs[0]), instrs[1..], k);
    }
  }

  /** The state after a hard reset satisfies the invariant. */
  lemma ResetIsGood(tlb: seq<Entry>)
    requires |tlb| == ENTRIES && forall i :: 0 <= i < ENTRIES ==> tlb[i].mask == 0
    ensures Inv(Cpu(tlb, Cp0(0, false, 47, 0, 0, 0, 0, 0)))
  {
    assert Above(0);
  }
}
