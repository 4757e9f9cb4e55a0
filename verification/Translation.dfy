/**
 What a translation of the RV32 processor answers and what it does to memory,
 from the mode and the status bits of the hart to the name of the fault,
 compared with the standard's.
*/
module Translation {
  import opened Options
  import opened Memory
  import opened Sv32
  import opened Tlb
  import opened Transparency
  import PT = PageTable
  import Bits
  import I = Interrupts
  import St = Status
  import Traps

  // ---------- the registers of the processor ----------

  function Number(mode: PT.Mode): nat {
    match mode case UserMode => 0 case SupervisorMode => 1 case MachineMode => 3
  }

  function CsrOf(st: PT.Status, asid: nat, root: nat): Csr {
    Csr(Number(st.mode), st.mprv, Number(st.mpp), st.mxr, st.sum, st.bare, asid, root)
  }

  /** The exception each fault is reported as. */
  function Named(a: PT.Answer): Translation {
    match a
    case Address(phys) => Phys(phys)
    case PageFault(Load) => Fault(LoadPageFault)
    case PageFault(Store) => Fault(StoreAmoPageFault)
    case PageFault(Fetch) => Fault(InstructionPageFault)
  }

  /** The layout of an entry: one bit each from the lowest on, and the page number from bit 10. */
  lemma Layout(p: Pte)
    ensures V(p) <==> p % 2 == 1
    ensures R(p) <==> p / 2 % 2 == 1
    ensures W(p) <==> p / 4 % 2 == 1
    ensures X(p) <==> p / 8 % 2 == 1
    ensures U(p) <==> p / 16 % 2 == 1
    ensures G(p) <==> p / 32 % 2 == 1
    ensures A(p) <==> p / 64 % 2 == 1
    ensures D(p) <==> p / 128 % 2 == 1
  {}

  lemma PageNumber(p: Pte)
    ensures Ppn(p) == (p / 1024) as nat
  {
    assert p >> 10 == p / 1024;
  }

  // ---------- the answer ----------

  /** The code lets MPRV govern fetches below M mode too; it makes a difference when the two modes differ. */
  predicate Misgoverned(st: PT.Status, access: PT.Access) {
    access == PT.Fetch && st.mprv && st.mode != PT.MachineMode && st.mpp != st.mode && !st.bare
  }

  /** The processor answers as the standard asks. */
  predicate AsStandard(m: Mem, st: PT.Status, asid: nat, root: nat, virt: nat, access: PT.Access, noisy: bool) {
    Reference(m, CsrOf(st, asid, root), virt, access == PT.Store, access == PT.Fetch, noisy).0 ==
    Named(PT.Translate(Reader(m), SCHEME, st, root, virt, access))
  }

  lemma AnswerIsStandard(m: Mem, st: PT.Status, asid: nat, root: nat, virt: nat, access: PT.Access, noisy: bool)
    requires !Misgoverned(st, access)
    ensures AsStandard(m, st, asid, root, virt, access, noisy)
  {
    hide FindLeaf, PteAt, V, R, W, X, U, G, A, D, Ppn, Updated, UpdateNeeded, MakePhys, PT.PhysicalAddress, PT.Lookup,
         Write32, AccessAllowed, PT.Permitted;
    var c, wr, fetch := CsrOf(st, asid, root), access == PT.Store, access == PT.Fetch;
    WalkIsReference(m, root, virt);
    if UseSv32(c, fetch) && FindLeaf(m, root, virt).Some? {
      var l := FindLeaf(m, root, virt).value;
      AccessIsReference(c, l.pte, wr, fetch);
      PhysIsReference(m, root, virt);
      UpdateKeepsAddress(virt, l.pte, l.mega, wr);
    }
  }

  lemma UpdateKeepsAddress(virt: nat, p: Pte, mega: bool, wr: bool)
    ensures MakePhys(virt, Updated(p, wr), mega) == MakePhys(virt, p, mega)
  {
    hide SameButAD, Updated, R, W, X, U, G, Ppn, IsValid, IsLeaf;
    UpdateSetsAD(p, wr);
    ADIrrelevant(p, Updated(p, wr));
  }

  /** A root table in frame 0: a megapage user mode may execute at address 0, or nothing at all. */
  const USER_CODE: Mem := Mem(map x: nat | 0 <= x < 4096 :: if x == 0 then 0x19 else 0, {}, {})
  const NOTHING: Mem := Mem(map x: nat | 0 <= x < 4096 :: 0, {}, {})

  lemma UserBits()
    ensures Join32(0x19, 0, 0, 0) == 0x19 && Join32(0, 0, 0, 0) == 0
    ensures IsValid(0x19) && IsLeaf(0x19) && X(0x19) && U(0x19) && !W(0x19) && !IsValid(0)
  {}

  lemma UserPpn()
    ensures Ppn(0x19) == 0
  {
    assert (0x19 as bv32) >> 10 == 0;
  }

  lemma UserEntries()
    ensures PteAt(USER_CODE, 0) == 0x19 && PteAt(NOTHING, 0) == 0
  {
    hide Join32;
    UserBits();
  }

  lemma UserWalks()
    ensures FindLeaf(USER_CODE, 0, 0) == Some(Leaf(0, 0x19, true, G(0x19))) && FindLeaf(NOTHING, 0, 0) == None
  {
    hide PteAt, Ppn, V, R, W, X, G, IsValid, IsLeaf;
    UserBits();
    UserPpn();
    UserEntries();
  }

  /**
   Where MPRV is set, the previous mode differs and the fetch is from below M mode,
   some table tells the two apart.
  */
  lemma MisgovernedDiffers(st: PT.Status)
    requires Misgoverned(st, PT.Fetch)
    ensures var m := if st.mpp == PT.MachineMode then NOTHING else USER_CODE;
            !AsStandard(m, st, 0, 0, 0, PT.Fetch, false)
  {
    hide FindLeaf, PteAt, Ppn, V, R, W, X, G, U, A, D, IsValid, IsLeaf, Updated, UpdateNeeded, MakePhys, Reader,
         Write32, PT.Lookup, PT.PhysicalAddress;
    UserBits();
    UserWalks();
    WalkIsReference(USER_CODE, 0, 0);
    WalkIsReference(NOTHING, 0, 0);
  }

  /**
   For every table, address and buffer-free translation the processor answers
   as the standard, exactly when the access is not a misgoverned fetch.
  */
  lemma AnswerIsStandardIff(st: PT.Status, access: PT.Access)
    ensures (forall m: Mem, asid: nat, root: nat, virt: nat, noisy: bool ::
               AsStandard(m, st, asid, root, virt, access, noisy)) <==> !Misgoverned(st, access)
  {
    hide AsStandard;
    if Misgoverned(st, access) {
      MisgovernedDiffers(st);
    } else {
      forall m: Mem, asid: nat, root: nat, virt: nat, noisy: bool
        ensures AsStandard(m, st, asid, root, virt, access, noisy)
      {
        AnswerIsStandard(m, st, asid, root, virt, access, noisy);
      }
    }
  }

  // ---------- the memory ----------

  /** Each word afterwards: the leaf is marked if memory lets it, everything else is as it was. */
  lemma MemoryIsStandard(m: Mem, st: PT.Status, asid: nat, root: nat, virt: nat, access: PT.Access, x: nat)
    requires WellFormed(m) && Aligned(x, 4) && !Misgoverned(st, access)
    ensures var n := Reference(m, CsrOf(st, asid, root), virt, access == PT.Store, access == PT.Fetch, true).1;
            match PT.Resolve(Reader(m), SCHEME, st, root, virt, access)
            case Through(f) =>
              if Canon(x) == Canon(f.addr) && Writable(m, f.addr)
              then View(PteAt(n, x)) == PT.Marked(View(PteAt(m, x)), access) && SameButAD(PteAt(m, x), PteAt(n, x))
              else PteAt(n, x) == PteAt(m, x)
            case _ => n == m
  {
    hide FindLeaf, PteAt, View, Updated, UpdateNeeded, MakePhys, PT.PhysicalAddress, PT.Lookup, WellFormed, Write32,
         AccessAllowed, PT.Permitted, SameButAD, PT.Marked;
    var c, wr, fetch := CsrOf(st, asid, root), access == PT.Store, access == PT.Fetch;
    WalkIsReference(m, root, virt);
    if UseSv32(c, fetch) && FindLeaf(m, root, virt).Some? {
      var l := FindLeaf(m, root, virt).value;
      AccessIsReference(c, l.pte, wr, fetch);
      LeafInMemory(m, root, virt);
      LeafIsMarked(m, l.addr, access, x);
    }
  }

  /** What writing a leaf back does to each word. */
  lemma LeafIsMarked(m: Mem, addr: nat, access: PT.Access, x: nat)
    requires WellFormed(m) && Aligned(addr, 4) && Aligned(x, 4)
    ensures var wr, p := access == PT.Store, PteAt(m, addr);
            var n := if UpdateNeeded(p, wr) then Write32(m, addr, Updated(p, wr), true) else m;
            if Canon(x) == Canon(addr) && Writable(m, addr)
            then View(PteAt(n, x)) == PT.Marked(View(PteAt(m, x)), access) && SameButAD(PteAt(m, x), PteAt(n, x))
            else PteAt(n, x) == PteAt(m, x)
  {
    hide PteAt, View, Updated, UpdateNeeded, WellFormed, Write32, SameButAD, PT.Marked, Canon;
    WriteBack(m, addr, access == PT.Store, x);
    MarkedWord(PteAt(m, x), access);
    if Canon(x) == Canon(addr) {
      SameWord(m, x, addr);
    }
  }

  lemma MarkedWord(p: Pte, access: PT.Access)
    ensures View(Updated(p, access == PT.Store)) == PT.Marked(View(p), access)
    ensures !UpdateNeeded(p, access == PT.Store) ==> PT.Marked(View(p), access) == View(p)
    ensures SameButAD(p, p) && SameButAD(p, Updated(p, access == PT.Store))
  {
    UpdateSetsAD(p, access == PT.Store);
    SameItself(p);
    hide SameButAD, Updated, V, R, W, X, U, G, A, D, Ppn;
    ADIrrelevant(p, Updated(p, access == PT.Store));
    ValidBit(p, access == PT.Store);
  }

  lemma SameItself(p: Pte)
    ensures SameButAD(p, p)
  {}

  lemma ValidBit(p: Pte, wr: bool)
    ensures V(Updated(p, wr)) == V(p)
  {}

  // ---------- through a buffer ----------

  /** So through any coherent buffer the processor answers as the standard asks. */
  lemma BufferedIsStandard(m: Mem, roots: Roots, tlb: seq<Entry>, capacity: nat, st: PT.Status, asid: nat, virt: nat,
                           access: PT.Access)
    requires WellFormed(m) && SharedGlobals(m, roots) && Coherent(m, roots, tlb) && asid in roots
    requires |tlb| <= capacity && 0 < capacity && !Misgoverned(st, access)
    ensures var r := Convert(m, tlb, capacity, CsrOf(st, asid, roots[asid]), virt, access == PT.Store,
                             access == PT.Fetch, true);
            r.result == Named(PT.Translate(Reader(m), SCHEME, st, roots[asid], virt, access))
  {
    hide Convert, Reference, Named, PT.Translate, Coherent, SharedGlobals, WellFormed;
    TranslationTransparent(m, roots, tlb, capacity, CsrOf(st, asid, roots[asid]), virt, access == PT.Store,
                           access == PT.Fetch);
    AnswerIsStandard(m, st, asid, roots[asid], virt, access, true);
  }

  // ---------- in every state a run reaches ----------

  function ModeOf(p: St.Priv): PT.Mode {
    match p case U => PT.UserMode case S => PT.SupervisorMode case M => PT.MachineMode
  }

  /** What translation sees of a hart: its mode and the bits MPRV, MPP, SUM and MXR of its status. */
  function StatusOf(h: I.Hart, bare: bool): PT.Status {
    var w := h.csr.mstatus;
    var mpp := if Bits.Bit(w, 12) then PT.MachineMode else if Bits.Bit(w, 11) then PT.SupervisorMode else PT.UserMode;
    PT.Status(ModeOf(h.priv), Bits.Bit(w, 17), mpp, Bits.Bit(w, 18), Bits.Bit(w, 19), bare)
  }

  /**
   A run that starts with MPRV clear or in M mode, as reset does, never gets to
   a misgoverned fetch: there the processor always answers as the standard asks.
  */
  lemma ReachableIsStandard(h: I.Hart, events: seq<I.Event>, bare: bool, m: Mem, asid: nat, root: nat, virt: nat,
                            access: PT.Access, noisy: bool)
    requires Traps.MprvInMachine(h)
    ensures AsStandard(m, StatusOf(I.Run(h, events), bare), asid, root, virt, access, noisy)
  {
    hide AsStandard, Bits.Bit, I.Run;
    Traps.RunKeepsMprv(h, events);
    AnswerIsStandard(m, StatusOf(I.Run(h, events), bare), asid, root, virt, access, noisy);
  }
}
