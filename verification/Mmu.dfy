/**
 Address translation as the processor runs it: the walk and the lookup work on
 the frame table and on the linked lists of the buffer.  They are proved to be
 `Tlb.WalkAndFill` and `Tlb.Convert` on the flat memory and the entries in use,
 so every law of those holds of them.
*/
module Mmu {
  import opened Options
  import opened Memory
  import opened Sv32
  import T = Tlb
  import PhysMem
  import TlbHeap

  class Hart {
    var csr: Csr
    const tlb: TlbHeap.Buffer

    constructor (csr: Csr, tlb: TlbHeap.Buffer)
      ensures this.csr == csr && this.tlb == tlb
    {
      this.csr, this.tlb := csr, tlb;
    }

    /** The search for the leaf in `rv32_pagewalk`. */
    method FindLeaf(space: PhysMem.Space, virt: nat) returns (leaf: Option<Leaf>)
      requires space.Valid()
      ensures leaf == Sv32.FindLeaf(space.View(), csr.root, virt)
    {
      hide PhysMem.Space.Valid, PhysMem.Space.View, Memory.Read32, Ppn, V, R, W, X, G;
      var addr := csr.root * 4096 + virt / MEGAPAGE % 1024 * 4;
      var pte := space.Read32(addr);
      if !IsValid(pte) {
        return None;
      }
      if IsLeaf(pte) {
        if Misaligned(pte) {
          return None;
        }
        return Some(Leaf(addr, pte, true, G(pte)));
      }
      var global := G(pte);
      addr := Ppn(pte) * 4096 + virt / 4096 % 1024 * 4;
      pte := space.Read32(addr);
      if !IsValid(pte) || !IsLeaf(pte) {
        return None;
      }
      return Some(Leaf(addr, pte, false, global || G(pte)));
    }

    /** The accessed and dirty bits are set in the entry, and by a noisy walk in memory. */
    static method Record(space: PhysMem.Space, addr: nat, pte: Pte, wr: bool, noisy: bool) returns (updated: Pte)
      requires space.Valid() && Aligned(addr, 4)
      modifies space`ftl0, space.stores
      ensures space.Valid()
      ensures updated == if UpdateNeeded(pte, wr) then Updated(pte, wr) else pte
      ensures space.View() == if UpdateNeeded(pte, wr) && noisy
                              then Memory.Write32(old(space.View()), addr, updated, true) else old(space.View())
    {
      hide PhysMem.Space.Valid, PhysMem.Space.View, Memory.Write32, UpdateNeeded, Updated;
      updated := pte;
      if UpdateNeeded(pte, wr) {
        updated := Updated(pte, wr);
        if noisy {
          var _ := space.Write32(addr, updated, true);
        }
      }
    }

    /** `rv32_pagewalk` */
    method Pagewalk(space: PhysMem.Space, virt: nat, wr: bool, fetch: bool, noisy: bool) returns (r: Translation)
      requires space.Valid() && tlb.Valid()
      modifies space`ftl0, space.stores, tlb.lru, tlb.free, tlb.slots
      ensures space.Valid() && tlb.Valid()
      ensures |old(tlb.Contents())| <= |tlb.slots|
      ensures T.Converted(r, space.View(), tlb.Contents()) ==
              T.WalkAndFill(old(space.View()), old(tlb.Contents()), |tlb.slots|, csr, virt, wr, fetch, noisy)
    {
      hide PhysMem.Space.Valid, PhysMem.Space.View, TlbHeap.Buffer.Valid, TlbHeap.Buffer.Contents, Sv32.FindLeaf,
           Memory.Write32, AccessAllowed, UpdateNeeded, Updated, MakePhys, PageFault, T.Add, T.VpnOf;
      Fits();
      var found := FindLeaf(space, virt);
      if found.None? {
        return Fault(PageFault(wr, fetch));
      }
      var leaf := found.value;
      var pte := leaf.pte;
      if !AccessAllowed(csr, pte, wr, fetch) {
        return Fault(PageFault(wr, fetch));
      }
      LeafInMemory(space.View(), csr.root, virt);
      pte := Record(space, leaf.addr, pte, wr, noisy);
      tlb.AddMapping(csr.asid, virt, pte, leaf.mega, leaf.global);
      r := Phys(MakePhys(virt, pte, leaf.mega));
    }

    lemma Fits()
      requires tlb.Valid()
      ensures |tlb.Contents()| <= |tlb.slots| && 0 < |tlb.slots|
    {}

    /** `rv_convert_addr` */
    method ConvertAddr(space: PhysMem.Space, virt: nat, wr: bool, fetch: bool, noisy: bool) returns (r: Translation)
      requires space.Valid() && tlb.Valid()
      modifies space`ftl0, space.stores, tlb.lru, tlb.free, tlb.slots
      ensures space.Valid() && tlb.Valid()
      ensures |old(tlb.Contents())| <= |tlb.slots|
      ensures T.Converted(r, space.View(), tlb.Contents()) ==
              T.Convert(old(space.View()), old(tlb.Contents()), |tlb.slots|, csr, virt, wr, fetch, noisy)
    {
      hide PhysMem.Space.Valid, PhysMem.Space.View, TlbHeap.Buffer.Valid, TlbHeap.Buffer.Contents, T.WalkAndFill,
           AccessAllowed, UpdateNeeded, IsValid, Misaligned, MakePhys, UseSv32, PageFault, T.FirstMatch, T.Remove,
           T.ToFront;
      Fits();
      if !UseSv32(csr, fetch) {
        return Phys(virt);
      }
      var hit, pte, mega := tlb.GetMapping(csr.asid, virt, true);
      if hit {
        if !IsValid(pte) {
          return Fault(PageFault(wr, fetch));
        }
        if !AccessAllowed(csr, pte, wr, fetch) {
          return Fault(PageFault(wr, fetch));
        }
        if mega && Misaligned(pte) {
          return Fault(PageFault(wr, fetch));
        }
        if !UpdateNeeded(pte, wr) {
          return Phys(MakePhys(virt, pte, mega));
        }
        tlb.RemoveMapping(csr.asid, virt);
      }
      r := Pagewalk(space, virt, wr, fetch, noisy);
    }

    /** `_rv32_sfence_instr`: register 0 as an operand means "all"; refused below S mode and under TVM. */
    method Sfence(tvm: bool, rs1: nat, rs2: nat, reg1: bv32, reg2: bv32) returns (illegal: bool)
      requires tlb.Valid()
      modifies tlb.lru, tlb.free, tlb.slots
      ensures tlb.Valid()
      ensures match T.SfenceVma(csr.mode, tvm, rs1, rs2, reg1, reg2)
              case IllegalInstruction => illegal && tlb.Contents() == old(tlb.Contents())
              case Flushes(f) => !illegal && tlb.Contents() == T.Flush(old(tlb.Contents()), f)
      ensures illegal <==> tvm || csr.mode == 0
      ensures forall e :: multiset(tlb.Contents())[e] ==
                if !illegal && T.Addressed(rs1, rs2, reg1, reg2, e) then 0 else multiset(old(tlb.Contents()))[e]
    {
      hide TlbHeap.Buffer.Valid, TlbHeap.Buffer.Contents, T.AsidOf, T.AddrOf, T.Flush, T.Addressed, T.Hits;
      forall e { T.SfenceSelects(csr.mode, tvm, rs1, rs2, reg1, reg2, e); }
      forall e, f {:trigger T.Hits(f, e)} ensures multiset(T.Flush(tlb.Contents(), f))[e] ==
                                                  if T.Hits(f, e) then 0 else multiset(tlb.Contents())[e]
      {
        T.FlushExactly(tlb.Contents(), f, e);
      }
      if tvm || csr.mode < 1 {
        return true;
      }
      if rs1 == 0 {
        if rs2 == 0 {
          tlb.Flush(T.All);
        } else {
          tlb.Flush(T.ByAsid(T.AsidOf(reg2)));
        }
      } else {
        if rs2 == 0 {
          tlb.Flush(T.ByAddr(T.AddrOf(reg1)));
        } else {
          tlb.Flush(T.ByAsidAndAddr(T.AsidOf(reg2), T.AddrOf(reg1)));
        }
      }
      illegal := false;
    }
  }
}
