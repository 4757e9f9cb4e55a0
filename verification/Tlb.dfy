/**
 The translation lookaside buffer as a value: the cached entries in order of
 use, most recent first.  `TlbHeap` implements it on linked lists; the laws of
 the cache are stated here.
*/
module Tlb {
  import opened Sv32

  datatype Entry = Entry(pte: Pte, vpn: nat, asid: nat, global: bool, mega: bool)

  function VpnOf(virt: nat, mega: bool): nat { if mega then virt / MEGAPAGE else virt / 4096 }

  predicate MapsVirt(e: Entry, virt: nat) { e.vpn == VpnOf(virt, e.mega) }

  /** Entries of another address space are skipped unless they are global. */
  predicate Serves(e: Entry, asid: nat) { e.global || e.asid == asid }

  predicate Matches(e: Entry, asid: nat, virt: nat) { Serves(e, asid) && MapsVirt(e, virt) }

  /** Index of the first match in order of use, or the length if there is none. */
  function FirstMatch(s: seq<Entry>, asid: nat, virt: nat): (k: nat)
    ensures k <= |s|
    ensures k < |s| ==> Matches(s[k], asid, virt)
    ensures forall i :: 0 <= i < k ==> !Matches(s[i], asid, virt)
  {
    if s == [] then 0
    else if Matches(s[0], asid, virt) then 0
    else FirstMatch(s[1..], asid, virt) + 1
  }

  function Without<T>(s: seq<T>, k: nat): seq<T>
    requires k < |s|
  {
    s[..k] + s[k + 1..]
  }

  function ToFront<T>(s: seq<T>, k: nat): seq<T>
    requires k < |s|
  {
    [s[k]] + Without(s, k)
  }

  /** Insert in front; a full buffer first gives up its last entry. */
  function Add<T>(s: seq<T>, capacity: nat, e: T): seq<T>
    requires |s| <= capacity && 0 < capacity
  {
    [e] + if |s| < capacity then s else s[..|s| - 1]
  }

  function Remove(s: seq<Entry>, asid: nat, virt: nat): seq<Entry> {
    var k := FirstMatch(s, asid, virt);
    if k < |s| then Without(s, k) else s
  }

  /** The page or megapage of an entry contains the address. */
  predicate Contains(e: Entry, virt: nat) {
    if e.mega then e.vpn * 0x40_0000 <= virt < (e.vpn + 1) * 0x40_0000
    else e.vpn * 0x1000 <= virt < (e.vpn + 1) * 0x1000
  }

  lemma MapsVirtIff(e: Entry, virt: nat)
    ensures MapsVirt(e, virt) <==> Contains(e, virt)
  {}

  // ---------- SFENCE.VMA ----------

  datatype Fence = All | ByAsid(asid: nat) | ByAddr(virt: nat) | ByAsidAndAddr(asid: nat, virt: nat)

  predicate Hits(f: Fence, e: Entry) {
    match f
    case All => true
    case ByAsid(asid) => !e.global && e.asid == asid
    case ByAddr(virt) => MapsVirt(e, virt)
    case ByAsidAndAddr(asid, virt) => !e.global && e.asid == asid && MapsVirt(e, virt)
  }

  /** The survivors, in order. */
  function Flush(s: seq<Entry>, f: Fence): (r: seq<Entry>)
    ensures forall e :: e in r <==> e in s && !Hits(f, e)
  {
    if s == [] then []
    else (if Hits(f, s[0]) then [] else [s[0]]) + Flush(s[1..], f)
  }

  lemma {:induction false} FlushFits(s: seq<Entry>, f: Fence)
    ensures |Flush(s, f)| <= |s|
  {
    hide Hits;
    if s != [] {
      FlushFits(s[1..], f);
    }
  }

  datatype FenceChoice = IllegalInstruction | Flushes(fence: Fence)

  const ASID_MASK: bv32 := 0x1FF

  function AsidOf(reg: bv32): nat { (reg & ASID_MASK) as nat }

  function AddrOf(reg: bv32): nat { reg as nat }

  /** Which flush the instruction performs: register 0 as an operand means "all". */
  function SfenceVma(mode: nat, tvm: bool, rs1: nat, rs2: nat, reg1: bv32, reg2: bv32): FenceChoice {
    if tvm || mode < 1 then IllegalInstruction
    else if rs1 == 0 then
      if rs2 == 0 then Flushes(All) else Flushes(ByAsid(AsidOf(reg2)))
    else
      if rs2 == 0 then Flushes(ByAddr(AddrOf(reg1))) else Flushes(ByAsidAndAddr(AsidOf(reg2), AddrOf(reg1)))
  }

  /**
   The entries SFENCE.VMA is to remove, by its operands: those whose page
   contains the address, unless rs1 is x0, and those of the address space that
   are not global, unless rs2 is x0.
  */
  predicate Addressed(rs1: nat, rs2: nat, reg1: bv32, reg2: bv32, e: Entry) {
    && (rs1 == 0 || Contains(e, AddrOf(reg1)))
    && (rs2 == 0 || (!e.global && e.asid == LowNine(reg2)))
  }

  function LowNine(reg: bv32): nat { (reg % 512) as nat }

  lemma AsidIsLowNine(reg: bv32)
    ensures AsidOf(reg) == LowNine(reg)
  {
    assert reg & ASID_MASK == reg % 512;
  }

  /** The instruction is refused below S mode and under TVM, and else selects exactly those. */
  lemma SfenceSelects(mode: nat, tvm: bool, rs1: nat, rs2: nat, reg1: bv32, reg2: bv32, e: Entry)
    ensures SfenceVma(mode, tvm, rs1, rs2, reg1, reg2).IllegalInstruction? <==> tvm || mode == 0
    ensures match SfenceVma(mode, tvm, rs1, rs2, reg1, reg2)
            case IllegalInstruction => true
            case Flushes(f) => Hits(f, e) <==> Addressed(rs1, rs2, reg1, reg2, e)
  {
    hide MapsVirt, Contains, AsidOf, LowNine, AddrOf;
    AsidIsLowNine(reg2);
    MapsVirtIff(e, AddrOf(reg1));
  }

  /**
   The standard lets TVM stop the fence only in S mode; it is refused as the standard
   asks exactly when not in M mode under TVM.
  */
  lemma SfenceRefusedIff(mode: nat, tvm: bool, rs1: nat, rs2: nat, reg1: bv32, reg2: bv32)
    requires mode == 0 || mode == 1 || mode == 3
    ensures (SfenceVma(mode, tvm, rs1, rs2, reg1, reg2).IllegalInstruction? <==> mode == 0 || (mode == 1 && tvm))
            <==> !(mode == 3 && tvm)
  {
    hide AsidOf, AddrOf;
  }

  /** In M mode with TVM set, the full fence is an illegal instruction. */
  lemma SfenceRefusedInMachine()
    ensures SfenceVma(3, true, 0, 0, 0, 0) == IllegalInstruction
  {}

  // ---------- translation through the buffer ----------

  datatype Converted = Converted(result: Translation, mem: Memory.Mem, tlb: seq<Entry>)

  function EntryOf(l: Leaf, asid: nat, virt: nat): Entry {
    Entry(l.pte, VpnOf(virt, l.mega), asid, l.global, l.mega)
  }

  /** `rv32_pagewalk` with its insertion into the buffer. */
  function WalkAndFill(m: Memory.Mem, tlb: seq<Entry>, capacity: nat, c: Csr, virt: nat, wr: bool, fetch: bool,
                       noisy: bool): Converted
    requires |tlb| <= capacity && 0 < capacity
  {
    var w := Pagewalk(m, c, virt, wr, fetch, noisy);
    Converted(w.result, w.mem,
              if w.leaf.Some? then Add(tlb, capacity, EntryOf(w.leaf.value, c.asid, virt)) else tlb)
  }

  /** `rv_convert_addr`. */
  function Convert(m: Memory.Mem, tlb: seq<Entry>, capacity: nat, c: Csr, virt: nat, wr: bool, fetch: bool,
                   noisy: bool): Converted
    requires |tlb| <= capacity && 0 < capacity
  {
    if !UseSv32(c, fetch) then Converted(Phys(virt), m, tlb)
    else
      var k := FirstMatch(tlb, c.asid, virt);
      if k < |tlb| then
        var e := tlb[k];
        var used := ToFront(tlb, k);
        if !IsValid(e.pte) then Converted(Fault(PageFault(wr, fetch)), m, used)
        else if !AccessAllowed(c, e.pte, wr, fetch) then Converted(Fault(PageFault(wr, fetch)), m, used)
        else if e.mega && Misaligned(e.pte) then Converted(Fault(PageFault(wr, fetch)), m, used)
        else if !UpdateNeeded(e.pte, wr) then Converted(Phys(MakePhys(virt, e.pte, e.mega)), m, used)
        else WalkAndFill(m, Remove(used, c.asid, virt), capacity, c, virt, wr, fetch, noisy)
      else WalkAndFill(m, tlb, capacity, c, virt, wr, fetch, noisy)
  }

  // ---------- laws of the buffer ----------

  lemma RemoveShrinks(s: seq<Entry>, asid: nat, virt: nat)
    ensures |Remove(s, asid, virt)| <= |s|
    ensures forall e :: e in Remove(s, asid, virt) ==> e in s
  {}

  /** A fence removes exactly the entries of its form. */
  lemma {:induction false} FlushExactly(s: seq<Entry>, f: Fence, e: Entry)
    ensures multiset(Flush(s, f))[e] == if Hits(f, e) then 0 else multiset(s)[e]
  {
    if s != [] {
      assert s == [s[0]] + s[1..];
      FlushExactly(s[1..], f, e);
    }
  }

  /** Survivors keep their order of use: a fence distributes over any split of the buffer. */
  lemma {:induction false} FlushKeepsOrder(s: seq<Entry>, t: seq<Entry>, f: Fence)
    ensures Flush(s + t, f) == Flush(s, f) + Flush(t, f)
  {
    if s == [] {
      assert s + t == t;
    } else {
      assert (s + t)[1..] == s[1..] + t;
      FlushKeepsOrder(s[1..], t, f);
    }
  }

  /** After a fence a lookup finds no entry the fence was to remove. */
  lemma FlushedLookup(s: seq<Entry>, f: Fence, asid: nat, virt: nat)
    ensures var t := Flush(s, f);
            var k := FirstMatch(t, asid, virt);
            k < |t| ==> !Hits(f, t[k]) && t[k] in s
  {
    hide Hits, Matches;
    var t := Flush(s, f);
    var k := FirstMatch(t, asid, virt);
    if k < |t| {
      assert t[k] in t;
    }
  }

  /** A fence does not disturb lookups that found an entry it spares. */
  lemma {:induction false} SparedLookup(s: seq<Entry>, f: Fence, asid: nat, virt: nat)
    requires FirstMatch(s, asid, virt) < |s| && !Hits(f, s[FirstMatch(s, asid, virt)])
    ensures var t := Flush(s, f);
            var j := FirstMatch(t, asid, virt);
            j < |t| && t[j] == s[FirstMatch(s, asid, virt)]
  {
    hide Hits, Matches;
    var t, rest := Flush(s, f), Flush(s[1..], f);
    var k := FirstMatch(s, asid, virt);
    if Matches(s[0], asid, virt) {
      assert k == 0;
      assert t == [s[0]] + rest;
    } else {
      assert k == FirstMatch(s[1..], asid, virt) + 1 && s[k] == s[1..][k - 1];
      SparedLookup(s[1..], f, asid, virt);
      if Hits(f, s[0]) {
        assert t == rest;
      } else {
        assert t == [s[0]] + rest && t[1..] == rest;
      }
    }
  }

  /** The lookup has no preference for megapages: a page used later than a matching megapage wins. */
  lemma PageBeforeMegapage()
    ensures var page, mega := Entry(0x0F, 0, 0, false, false), Entry(0x0F, 0, 0, false, true);
            && Matches(page, 0, 0) && Matches(mega, 0, 0)
            && FirstMatch([page, mega], 0, 0) == 0 && FirstMatch([mega, page], 0, 0) == 0
  {}
}
