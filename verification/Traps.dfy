/**
 The traps of the RV32 processor, stated on the results of a step and on single
 bits of its registers.
*/
module Traps {
  import opened Options
  import opened Bits
  import opened Status
  import opened Interrupts

  // ---------- where the fields are ----------

  /** The masks the processor uses. */
  lemma Masks(n: bv32)
    requires n < 32
    ensures Bit(SI_MASK, n) <==> n in {1, 5, 9}
    ensures Bit(MI_MASK, n) <==> n in {1, 3, 5, 7, 9, 11}
    ensures Bit(MEDELEG_MASK, n) <==> n <= 9 || n in {12, 13, 15}
  {
    hide Bit;
    BitMask(SI_MASK, n);
    BitMask(MI_MASK, n);
    BitMask(MEDELEG_MASK, n);
    MaskBits(n);
  }

  lemma MaskBits(n: bv32)
    requires n < 32
    ensures Meets(SI_MASK, Power(n)) <==> n in {1, 5, 9}
    ensures Meets(MI_MASK, Power(n)) <==> n in {1, 3, 5, 7, 9, 11}
    ensures Meets(MEDELEG_MASK, Power(n)) <==> n <= 9 || n in {12, 13, 15}
  {}

  // ---------- which interrupt ----------

  /** The interrupts, the most urgent first, by their bits. */
  const ORDER: seq<bv32> := [11, 3, 7, 9, 1, 5]

  lemma Causes()
    ensures Number(MEI) == 11 && Number(MSI) == 3 && Number(MTI) == 7
    ensures Number(SEI) == 9 && Number(SSI) == 1 && Number(STI) == 5
    ensures forall c :: Code(c) == InterruptCode(Number(c))
    ensures forall c :: Rank(c) < 6 && ORDER[Rank(c)] == Number(c)
  {
    forall c ensures Code(c) == InterruptCode(Number(c)) && Rank(c) < 6 && ORDER[Rank(c)] == Number(c) {
      match c case MEI => case MSI => case MTI => case SEI => case SSI => case STI =>
    }
  }

  lemma UpIsBit(w: bv32, c: Cause)
    ensures Up(w, c) <==> Bit(w, Number(c))
  {
    hide Bit, Up, Meets;
    BitMask(w, 11);
    BitMask(w, 3);
    BitMask(w, 7);
    BitMask(w, 9);
    BitMask(w, 1);
    BitMask(w, 5);
    UpMeets(w, c);
    CausePowers();
  }

  lemma UpMeets(w: bv32, c: Cause)
    ensures Up(w, c) <==> Meets(w, match c case MEI => 0x800 case MSI => 0x8 case MTI => 0x80
                                           case SEI => 0x200 case SSI => 0x2 case STI => 0x20)
  {
    match c case MEI => case MSI => case MTI => case SEI => case SSI => case STI =>
  }

  lemma CausePowers()
    ensures Power(11) == 0x800 && Power(3) == 0x8 && Power(7) == 0x80
    ensures Power(9) == 0x200 && Power(1) == 0x2 && Power(5) == 0x20
  {}

  /** Pending in `mip`, or on the external line or the comparator of S mode. */
  predicate IsPending(csr: Csr, n: bv32) { Bit(csr.mip, n) || (n == 9 && csr.seip) || (n == 5 && csr.stip) }

  lemma PendingBits(csr: Csr, n: bv32)
    requires n < 32
    ensures Bit(Pending(csr), n) <==> IsPending(csr, n)
  {
    BitPower(9, n);
    BitPower(5, n);
    BitZero(n);
    hide Bit, Or;
    var a, b := if csr.seip then 0x200 else 0, if csr.stip then 0x20 else 0;
    BitOr(csr.mip, a, n);
    BitOr(Or(csr.mip, a), b, n);
  }

  lemma {:induction false} BitZero(n: bv32)
    ensures !Bit(0, n)
    decreases n
  {
    if n > 0 {
      BitZero(n - 1);
    }
  }

  /** To be handled in M mode. */
  predicate ForMachine(h: Hart, n: bv32) {
    && (h.priv != M || Bit(h.csr.mstatus, 3))
    && IsPending(h.csr, n) && Bit(h.csr.mie, n) && !Bit(h.csr.mideleg, n)
  }

  /** To be handled in S mode. */
  predicate ForSupervisor(h: Hart, n: bv32) {
    && (h.priv == U || (h.priv == S && Bit(h.csr.mstatus, 1)))
    && IsPending(h.csr, n) && Bit(h.csr.mie, n) && Bit(h.csr.mideleg, n)
  }

  lemma EligibleIsBits(h: Hart, c: Cause)
    ensures ForM(h, c) <==> ForMachine(h, Number(c))
    ensures ForS(h, c) <==> ForSupervisor(h, Number(c))
  {
    hide Bit, Up, Pending, Mie, Sie;
    Fields(h.csr.mstatus);
    UpIsBit(Pending(h.csr), c);
    UpIsBit(h.csr.mie, c);
    UpIsBit(h.csr.mideleg, c);
    PendingBits(h.csr, Number(c));
  }

  /** Interrupt number j of the order is eligible in M mode and no more urgent one is. */
  ghost predicate FirstInM(h: Hart, j: nat) {
    j < 6 && ForMachine(h, ORDER[j]) && forall i :: 0 <= i < j ==> !ForMachine(h, ORDER[i])
  }

  ghost predicate FirstInS(h: Hart, j: nat) {
    && j < 6 && ForSupervisor(h, ORDER[j]) && (forall i :: 0 <= i < j ==> !ForSupervisor(h, ORDER[i]))
    && (forall i :: 0 <= i < 6 ==> !ForMachine(h, ORDER[i]))
  }

  lemma RankedCause(j: nat) returns (c: Cause)
    requires j < 6
    ensures Rank(c) == j && Number(c) == ORDER[j]
  {
    c := if j == 0 then MEI
         else if j == 1 then MSI
         else if j == 2 then MTI
         else if j == 3 then SEI
         else if j == 4 then SSI
         else STI;
  }

  /** The choice the standard asks for, by numbers. */
  lemma HighestIsFirst(h: Hart, choice: Choice)
    requires Highest(h, choice)
    ensures match choice
            case ToM(c) => FirstInM(h, Rank(c))
            case ToS(c) => FirstInS(h, Rank(c))
            case Nothing => forall j :: 0 <= j < 6 ==> !ForMachine(h, ORDER[j]) && !ForSupervisor(h, ORDER[j])
  {
    hide ForM, ForS, ForMachine, ForSupervisor;
    Causes();
    forall c ensures (ForM(h, c) <==> ForMachine(h, Number(c))) && (ForS(h, c) <==> ForSupervisor(h, Number(c))) {
      EligibleIsBits(h, c);
    }
    forall j | 0 <= j < 6 ensures exists c :: Rank(c) == j && Number(c) == ORDER[j] {
      var c := RankedCause(j);
    }
  }

  // ---------- where a trap goes and what it saves ----------

  function Remainder(tvec: bv32): bv32 { tvec % 4 }
  function Floor(tvec: bv32): bv32 { tvec / 4 * 4 }
  function Word(base: bv32, n: bv32): bv32 { base + 4 * n }

  /** The cause register for interrupt n. */
  function InterruptCode(n: bv32): bv32 { 0x8000_0000 + n }

  /** The base of the vector without its mode, and one word for each cause when interrupts are vectored. */
  function Entry(tvec: bv32, n: bv32, interrupt: bool): bv32 {
    if interrupt && Remainder(tvec) == 1 then Word(Floor(tvec), n) else Floor(tvec)
  }

  lemma VectorIsEntry(tvec: bv32, n: bv32)
    requires n < 32
    ensures Vector(tvec, n) == Entry(tvec, n, false) && Vector(tvec, InterruptCode(n)) == Entry(tvec, n, true)
  {
    hide Mode, Base, Slot, IsInterrupt, Remainder, Floor, Word, InterruptCode;
    ModeIsRemainder(tvec);
    BaseIsFloor(tvec);
    SlotIsWord(tvec, n);
    CodeParts(n);
  }

  lemma ModeIsRemainder(tvec: bv32)
    ensures Mode(tvec) == Remainder(tvec)
  {}

  lemma BaseIsFloor(tvec: bv32)
    ensures Base(tvec) == Floor(tvec)
  {}

  lemma SlotIsWord(tvec: bv32, n: bv32)
    requires n < 32
    ensures Slot(tvec, InterruptCode(n)) == Word(Floor(tvec), n)
  {
    hide Base, Floor, InterruptCode, CauseOf;
    NumberOfCode(n);
    BaseIsFloor(tvec);
  }

  lemma NumberOfCode(n: bv32)
    requires n < 32
    ensures CauseOf(InterruptCode(n)) == n
  {}

  lemma CodeParts(n: bv32)
    requires n < 32
    ensures !IsInterrupt(n) && IsInterrupt(InterruptCode(n))
  {}

  /** After the timers have been looked at: bit 7 of `mip` is the machine timer, all others are as before. */
  ghost predicate TimersSeen(before: bv32, after: bv32, mtip: bool) {
    forall n: bv32 :: n < 32 ==> (Bit(after, n) <==> if n == 7 then mtip else Bit(before, n))
  }

  lemma TimersAreSeen(w: bv32, mtip: bool)
    ensures TimersSeen(w, WithBit(w, 0x80, mtip), mtip)
  {
    forall n: bv32 | n < 32 ensures Bit(WithBit(w, 0x80, mtip), n) <==> if n == 7 then mtip else Bit(w, n) {
      TimerBit(w, mtip, n);
    }
  }

  lemma TimerBit(w: bv32, mtip: bool, n: bv32)
    requires n < 32
    ensures Bit(WithBit(w, 0x80, mtip), n) <==> if n == 7 then mtip else Bit(w, n)
  {
    BitPower(7, n);
    hide Bit;
    BitOr(w, 0x80, n);
    BitExcept(w, 0x80, n);
  }

  /** The status after a trap to M mode from mode p. */
  ghost predicate SavedForM(before: bv32, p: Priv, after: bv32) {
    forall n: bv32 :: n < 32 ==>
      (Bit(after, n) <==> if n == 3 then false
                          else if n == 7 then Bit(before, 3)
                          else if n == 11 then p != U
                          else if n == 12 then p == M
                          else Bit(before, n))
  }

  /** The status after a trap to S mode from mode p. */
  ghost predicate SavedForS(before: bv32, p: Priv, after: bv32) {
    forall n: bv32 :: n < 32 ==>
      (Bit(after, n) <==> if n == 1 then false
                          else if n == 5 then Bit(before, 1)
                          else if n == 8 then p != U
                          else Bit(before, n))
  }

  lemma StatusIsSaved(w: bv32, p: Priv)
    ensures SavedForM(w, p, EnterM(w, p)) && SavedForS(w, p, EnterS(w, p))
  {
    hide Bit, EnterM, EnterS;
    forall n: bv32 | n < 32
      ensures (Bit(EnterM(w, p), n) <==> if n == 3 then false else if n == 7 then Bit(w, 3) else if n == 11 then p != U
                                         else if n == 12 then p == M else Bit(w, n))
      ensures (Bit(EnterS(w, p), n) <==> if n == 1 then false else if n == 5 then Bit(w, 1) else if n == 8 then p != U
                                         else Bit(w, n))
    {
      EnterMBits(w, p, n);
      EnterSBits(w, p, n);
    }
  }

  /** The hart is in M mode: cause, value and place are saved, the rest of the registers is as before. */
  ghost predicate InMachine(h: Hart, r: Hart, epc: bv32, cause: bv32, tval: bv32, entry: bv32, stip: bool, mtip: bool) {
    && r.priv == M && !r.stdby && r.pc == entry && r.pcNext == Follow(entry)
    && r.csr == h.csr.(mepc := epc, mcause := cause, mtval := tval, mstatus := r.csr.mstatus, stip := stip,
                       mip := r.csr.mip)
    && SavedForM(h.csr.mstatus, h.priv, r.csr.mstatus) && TimersSeen(h.csr.mip, r.csr.mip, mtip)
  }

  /** The hart is in S mode. */
  ghost predicate InSupervisor(h: Hart, r: Hart, epc: bv32, cause: bv32, tval: bv32, entry: bv32, stip: bool,
                               mtip: bool) {
    && r.priv == S && !r.stdby && r.pc == entry && r.pcNext == Follow(entry)
    && r.csr == h.csr.(sepc := epc, scause := cause, stval := tval, mstatus := r.csr.mstatus, stip := stip,
                       mip := r.csr.mip)
    && SavedForS(h.csr.mstatus, h.priv, r.csr.mstatus) && TimersSeen(h.csr.mip, r.csr.mip, mtip)
  }

  lemma MTrapLands(h: Hart, n: bv32, interrupt: bool, tval: bv32, stip: bool, mtip: bool)
    requires n < 32
    ensures var ex := if interrupt then InterruptCode(n) else n;
            InMachine(h, Retire(Timers(MTrap(h, ex, tval), stip, mtip)),
                      if interrupt then h.pcNext else h.pc, ex, tval,
                      Entry(h.csr.mtvec, n, interrupt), stip, mtip)
  {
    hide Entry, Vector, EnterM, IsInterrupt, WithBit, SavedForM, SavedForS, TimersSeen, InterruptCode, Follow;
    VectorIsEntry(h.csr.mtvec, n);
    CodeParts(n);
    StatusIsSaved(h.csr.mstatus, h.priv);
    TimersAreSeen(h.csr.mip, mtip);
  }

  lemma STrapLands(h: Hart, n: bv32, interrupt: bool, tval: bv32, stip: bool, mtip: bool)
    requires n < 32
    ensures var ex := if interrupt then InterruptCode(n) else n;
            InSupervisor(h, Retire(Timers(STrap(h, ex, tval), stip, mtip)),
                         if interrupt then h.pcNext else h.pc, ex, tval,
                         Entry(h.csr.stvec, n, interrupt), stip, mtip)
  {
    hide Entry, Vector, EnterS, IsInterrupt, WithBit, SavedForM, SavedForS, TimersSeen, InterruptCode, Follow;
    VectorIsEntry(h.csr.stvec, n);
    CodeParts(n);
    StatusIsSaved(h.csr.mstatus, h.priv);
    TimersAreSeen(h.csr.mip, mtip);
  }

  /**
   An exception is handled in S mode exactly when the hart is below M mode and
   bit number `code` of `medeleg` is set; everything is saved for its handler.
  */
  lemma ExceptionTaken(h: Hart, code: bv32, tval: bv32, stip: bool, mtip: bool)
    requires !h.stdby && code < 32
    ensures var r := Step(h, Raises(code, tval), stip, mtip);
            if h.priv != M && Bit(h.csr.medeleg, code)
            then InSupervisor(h, r, h.pc, code, tval, Entry(h.csr.stvec, code, false), stip, mtip)
            else InMachine(h, r, h.pc, code, tval, Entry(h.csr.mtvec, code, false), stip, mtip)
  {
    hide Entry, MTrap, STrap, InMachine, InSupervisor, Bit, Delegated, Timers, Retire;
    LowCode(code);
    DelegatedIsBit(h.csr.medeleg, code);
    MTrapLands(h, code, false, tval, stip, mtip);
    STrapLands(h, code, false, tval, stip, mtip);
  }

  lemma LowCode(code: bv32)
    requires code < 32
    ensures code & 0x1F == code
  {}

  /** The interrupt taken after an instruction, by its number and the mode it is handled in. */
  lemma InterruptTaken(h: Hart, i: Instr, stip: bool, mtip: bool, j: nat)
    requires Kept(h) && Executed(h, i).1.None? && j < 6
    ensures var h1, r := Executed(h, i).0, Step(h, i, stip, mtip);
            && (FirstInM(h1, j) ==>
                  InMachine(h1, r, h1.pcNext, InterruptCode(ORDER[j]), 0, Entry(h1.csr.mtvec, ORDER[j], true), stip,
                    mtip))
            && (FirstInS(h1, j) ==>
                  InSupervisor(h1, r, h1.pcNext, InterruptCode(ORDER[j]), 0, Entry(h1.csr.stvec, ORDER[j], true),
                    stip, mtip))
            && ((forall k :: 0 <= k < 6 ==> !ForMachine(h1, ORDER[k]) && !ForSupervisor(h1, ORDER[k])) ==>
                  r == Retire(Timers(h1, stip, mtip)))
  {
    hide Entry, MTrap, STrap, InMachine, InSupervisor, Timers, Retire, Executed, Select, Highest, ForMachine,
         ForSupervisor, KeptCsr, Follow;
    var h1 := Executed(h, i).0;
    ExecutedKeeps(h, i);
    SelectIsHighest(h1);
    HighestIsFirst(h1, Select(h1));
    Causes();
    MTrapLands(h1, ORDER[j], true, 0, stip, mtip);
    STrapLands(h1, ORDER[j], true, 0, stip, mtip);
    match Select(h1)
    case ToM(c) => UniqueFirst(h1, j, Rank(c));
    case ToS(c) => UniqueFirst(h1, j, Rank(c));
    case Nothing =>
  }

  lemma UniqueFirst(h: Hart, i: nat, j: nat)
    ensures FirstInM(h, i) && FirstInM(h, j) ==> i == j
    ensures FirstInS(h, i) && FirstInS(h, j) ==> i == j
    ensures !(FirstInM(h, i) && FirstInS(h, j)) && !(FirstInM(h, j) && FirstInS(h, i))
  {
    hide ForMachine, ForSupervisor;
  }

  lemma ExecutedKeeps(h: Hart, i: Instr)
    requires Kept(h)
    ensures OnlyS(Executed(h, i).0.csr.mideleg)
  {
    hide Execute, OnlyS, VectorMode, GoodMpp;
    ExecuteKeeps(h, i);
  }

  // ---------- what an instruction may do ----------

  /** The instructions a mode is not allowed: returns from higher modes, waiting, and registers of higher modes. */
  predicate Forbidden(h: Hart, i: Instr) {
    match i
    case MretI(_) => h.priv != M
    case SretI(_) => h.priv == U || Bit(h.csr.mstatus, 22)
    case Wfi(_) => h.priv == U || (h.priv == S && Bit(h.csr.mstatus, 21))
    case CsrI(_, reg, _, _) =>
      h.priv == U || (h.priv == S && reg != Stvec && reg != Sstatus && reg != SieReg && reg != Sip)
    case _ => false
  }

  /** A forbidden instruction raises the illegal-instruction exception with its encoding, and does nothing else. */
  lemma ForbiddenIff(h: Hart, i: Instr)
    requires !h.stdby && !i.Raises? && !i.GoTo?
    ensures Forbidden(h, i) <==> Executed(h, i).1.Some?
    ensures Forbidden(h, i) ==> Executed(h, i) == (h, Some((2, i.word)))
  {
    hide Bit, Mret, Sret, WriteCsr, Tsr, Tw;
    Fields(h.csr.mstatus);
  }

  /**
   The standard lets TSR stop SRET only in S mode; the processor refuses as it asks
   exactly when not in M mode under TSR.
  */
  lemma SretRefusedIff(h: Hart, word: bv32)
    requires !h.stdby
    ensures (Executed(h, SretI(word)).1.Some? <==> h.priv == U || (h.priv == S && Bit(h.csr.mstatus, 22)))
            <==> !(h.priv == M && Bit(h.csr.mstatus, 22))
  {
    hide Bit, Executed;
    ForbiddenIff(h, SretI(word));
  }

  /** In M mode with TSR set, SRET is an illegal instruction. */
  lemma SretRefusedInMachine(h: Hart, word: bv32)
    requires !h.stdby && h.priv == M && h.csr.mstatus == 0x40_0000
    ensures Executed(h, SretI(word)) == (h, Some((2, word)))
  {
    hide Bit, Executed;
    BitPower(22, 22);
    ForbiddenIff(h, SretI(word));
  }

  /** No instruction raises the privilege: only traps do. */
  lemma InstructionsNeverRaise(h: Hart, i: Instr)
    ensures Level(Executed(h, i).0.priv) <= Level(h.priv)
  {
    hide Mpp, Spp, LeaveM, LeaveS, WriteCsr, Tsr, Tw;
  }

  /**
   Below M mode an instruction leaves the registers of M mode alone, but for what
   `mstatus` and `mip` share with S mode.
  */
  lemma MachineStateSpared(h: Hart, i: Instr)
    requires h.priv != M
    ensures var c := Executed(h, i).0.csr;
            && c.mideleg == h.csr.mideleg && c.medeleg == h.csr.medeleg && c.mtvec == h.csr.mtvec
            && c.mepc == h.csr.mepc && c.mcause == h.csr.mcause && c.mtval == h.csr.mtval
    ensures h.priv == U ==> Executed(h, i).0.csr == h.csr && Executed(h, i).0.stdby == h.stdby
  {
    hide Mret, Sret, WriteCsr, Tsr, Tw;
    SretSpares(h);
    if i.CsrI? {
      WriteSpares(h.csr, i.reg, i.op, i.value);
    }
  }

  lemma SretSpares(h: Hart)
    ensures Sret(h).csr == h.csr.(mstatus := Sret(h).csr.mstatus)
  {
    hide LeaveS, Spp;
  }

  lemma WriteSpares(csr: Csr, reg: Reg, op: Op, value: bv32)
    ensures var c := WriteCsr(csr, reg, op, value);
            && c.mepc == csr.mepc && c.mcause == csr.mcause && c.mtval == csr.mtval
            && (reg == Stvec || reg == Sstatus || reg == SieReg || reg == Sip ==>
                  c.mideleg == csr.mideleg && c.medeleg == csr.medeleg && c.mtvec == csr.mtvec)
  {
    hide Changed, Merged, ChangedStatus;
    match reg
    case Mstatus => case Sstatus => case Mip => case MieReg => case Mideleg =>
    case Medeleg => case Mtvec => case Stvec => case SieReg => case Sip =>
  }

  /** MRET goes to the mode and the place the trap saved. */
  lemma MretGoes(h: Hart, word: bv32)
    requires h.priv == M && !h.stdby && GoodMpp(h.csr.mstatus)
    ensures var r := Executed(h, MretI(word)).0;
            && r.priv == (if Bit(h.csr.mstatus, 12) then M else if Bit(h.csr.mstatus, 11) then S else U)
            && r.pcNext == h.csr.mepc && r.csr == h.csr.(mstatus := r.csr.mstatus) && !r.stdby && r.pc == h.pc
            && forall n: bv32 :: n < 32 ==>
                 (Bit(r.csr.mstatus, n) <==> if n == 3 then Bit(h.csr.mstatus, 7)
                                             else if n == 7 then true
                                             else if n == 11 || n == 12 then false
                                             else if n == 17 then Bit(h.csr.mstatus, 17) && Bit(h.csr.mstatus, 12)
                                             else Bit(h.csr.mstatus, n))
  {
    hide Bit, LeaveM, Mpp;
    PreviousMode(h.csr.mstatus);
    FourModes(h.csr.mstatus);
    forall n: bv32 | n < 32
      ensures Bit(LeaveM(h.csr.mstatus), n) <==> if n == 3 then Bit(h.csr.mstatus, 7) else if n == 7 then true
                                                 else if n == 11 || n == 12 then false
                                                 else if n == 17 then Bit(h.csr.mstatus, 17) && Bit(h.csr.mstatus, 12)
                                                 else Bit(h.csr.mstatus, n)
    {
      LeaveMBits(h.csr.mstatus, n);
    }
  }

  /** SRET goes to the mode and the place the trap saved. */
  lemma SretGoes(h: Hart, word: bv32)
    requires h.priv != U && !h.stdby && !Bit(h.csr.mstatus, 22)
    ensures var r := Executed(h, SretI(word)).0;
            && r.priv == (if Bit(h.csr.mstatus, 8) then S else U)
            && r.pcNext == h.csr.sepc && r.csr == h.csr.(mstatus := r.csr.mstatus) && !r.stdby && r.pc == h.pc
            && forall n: bv32 :: n < 32 ==>
                 (Bit(r.csr.mstatus, n) <==> if n == 1 then Bit(h.csr.mstatus, 5)
                                             else if n == 5 then true
                                             else if n == 8 || n == 17 then false
                                             else Bit(h.csr.mstatus, n))
  {
    hide Bit, LeaveS, Spp, Tsr;
    Fields(h.csr.mstatus);
    forall n: bv32 | n < 32
      ensures Bit(LeaveS(h.csr.mstatus), n) <==> if n == 1 then Bit(h.csr.mstatus, 5) else if n == 5 then true
                                                 else if n == 8 || n == 17 then false
                                                 else Bit(h.csr.mstatus, n)
    {
      LeaveSBits(h.csr.mstatus, n);
    }
  }

  // ---------- writes to registers, bit by bit ----------

  /** The bits a write to the register can change. */
  predicate Writable(reg: Reg, n: bv32) {
    match reg
    case Mstatus => n in {1, 3, 5, 7, 8, 11, 12, 17, 18, 19, 20, 21, 22}
    case Sstatus => n in {1, 5, 8, 18, 19}
    case Mip => n in {1, 5, 9}
    case MieReg => n in {1, 3, 5, 7, 9, 11}
    case Mideleg => n in {1, 5, 9}
    case Medeleg => n <= 9 || n in {12, 13, 15}
    case Mtvec => n != 1
    case Stvec => n != 1
    case SieReg => n in {1, 5, 9}
    case Sip => n == 1
  }

  function MaskOf(reg: Reg): bv32 {
    match reg
    case Mstatus => MSTATUS_MASK
    case Sstatus => SSTATUS_MASK
    case Mip => SI_MASK
    case MieReg => MI_MASK
    case Mideleg => SI_MASK
    case Medeleg => MEDELEG_MASK
    case Mtvec => !2
    case Stvec => !2
    case SieReg => SI_MASK
    case Sip => SSI_MASK
  }

  lemma MaskIsWritable(reg: Reg, n: bv32)
    requires n < 32
    ensures Bit(MaskOf(reg), n) <==> Writable(reg, n)
  {
    hide Bit, Meets, Power;
    BitMask(MaskOf(reg), n);
    MaskBits(n);
    StatusMask(n);
    SupervisorMask(n);
    VectorMask(n);
    SoftwareMask(n);
  }

  lemma StatusMask(n: bv32)
    requires n < 32
    ensures Meets(MSTATUS_MASK, Power(n)) <==> n in {1, 3, 5, 7, 8, 11, 12, 17, 18, 19, 20, 21, 22}
  {}

  lemma SupervisorMask(n: bv32)
    requires n < 32
    ensures Meets(SSTATUS_MASK, Power(n)) <==> n in {1, 5, 8, 18, 19}
  {}

  lemma VectorMask(n: bv32)
    requires n < 32
    ensures Meets(!2, Power(n)) <==> n != 1
  {}

  lemma SoftwareMask(n: bv32)
    requires n < 32
    ensures Meets(SSI_MASK, Power(n)) <==> n == 1
  {}

  /** The state a register is kept in. */
  function Kernel(csr: Csr, reg: Reg): bv32 {
    match reg
    case Mstatus => csr.mstatus
    case Sstatus => csr.mstatus
    case Mip => csr.mip
    case MieReg => csr.mie
    case Mideleg => csr.mideleg
    case Medeleg => csr.medeleg
    case Mtvec => csr.mtvec
    case Stvec => csr.stvec
    case SieReg => csr.mie
    case Sip => csr.mip
  }

  /** What becomes of a bit; a plain write clears the bits it cannot change, except through `sie` and `sip`. */
  predicate NewBit(reg: Reg, op: Op, was: bool, val: bool, writable: bool) {
    match op
    case Write => if writable then val else was && (reg == SieReg || reg == Sip)
    case Set => was || (writable && val)
    case Clear => was && !(writable && val)
  }

  lemma ChangedBit(op: Op, current: bv32, value: bv32, mask: bv32, n: bv32)
    requires n < 32
    ensures Bit(Changed(op, current, value, mask), n) <==>
            match op
            case Write => Bit(value, n) && Bit(mask, n)
            case Set => Bit(current, n) || (Bit(value, n) && Bit(mask, n))
            case Clear => Bit(current, n) && !(Bit(value, n) && Bit(mask, n))
  {
    hide Bit, And, Or, Except;
    BitAnd(value, mask, n);
    BitOr(current, And(value, mask), n);
    BitExcept(current, And(value, mask), n);
  }

  lemma MergedBit(op: Op, current: bv32, value: bv32, mask: bv32, n: bv32)
    requires n < 32
    ensures Bit(Merged(op, current, value, mask), n) <==>
            match op
            case Write => if Bit(mask, n) then Bit(value, n) else Bit(current, n)
            case Set => Bit(current, n) || (Bit(value, n) && Bit(mask, n))
            case Clear => Bit(current, n) && !(Bit(value, n) && Bit(mask, n))
  {
    hide Bit, Changed, And, Or, Except;
    ChangedBit(op, current, value, mask, n);
    BitAnd(value, mask, n);
    BitExcept(current, mask, n);
    BitOr(Except(current, mask), And(value, mask), n);
  }

  /** A write changes one register and no other. */
  lemma OneRegister(csr: Csr, reg: Reg, op: Op, value: bv32)
    ensures var r := WriteCsr(csr, reg, op, value);
            r == match reg
                 case Mstatus => csr.(mstatus := r.mstatus)
                 case Sstatus => csr.(mstatus := r.mstatus)
                 case Mip => csr.(mip := r.mip)
                 case Sip => csr.(mip := r.mip)
                 case MieReg => csr.(mie := r.mie)
                 case SieReg => csr.(mie := r.mie)
                 case Mideleg => csr.(mideleg := r.mideleg)
                 case Medeleg => csr.(medeleg := r.medeleg)
                 case Mtvec => csr.(mtvec := r.mtvec)
                 case Stvec => csr.(stvec := r.stvec)
  {
    hide Changed, Merged, ChangedStatus;
  }

  /** Each of its bits changes as its place allows; MPP is the one exception. */
  lemma CsrBits(csr: Csr, reg: Reg, op: Op, value: bv32, n: bv32)
    requires n < 32 && reg != Mstatus
    ensures var r := WriteCsr(csr, reg, op, value);
            Bit(Kernel(r, reg), n) <==> NewBit(reg, op, Bit(Kernel(csr, reg), n), Bit(value, n), Writable(reg, n))
  {
    hide Bit, Changed, Merged, Writable;
    MaskIsWritable(reg, n);
    ChangedBit(op, Kernel(csr, reg), value, MaskOf(reg), n);
    MergedBit(op, Kernel(csr, reg), value, MaskOf(reg), n);
  }

  /** Would a write to `mstatus` put the reserved mode into MPP? */
  predicate Reserved(op: Op, w: bv32, value: bv32) {
    && NewBit(Mstatus, op, Bit(w, 12), Bit(value, 12), true)
    && !NewBit(Mstatus, op, Bit(w, 11), Bit(value, 11), true)
  }

  lemma ReservedIff(op: Op, w: bv32, value: bv32)
    ensures Reserved(op, w, value) <==> Mpp(Changed(op, w, value, MSTATUS_MASK)) == 2
  {
    hide Bit, Changed, Mpp, Writable;
    MaskIsWritable(Mstatus, 11);
    MaskIsWritable(Mstatus, 12);
    MppWritable();
    ChangedBit(op, w, value, MSTATUS_MASK, 11);
    ChangedBit(op, w, value, MSTATUS_MASK, 12);
    PreviousMode(Changed(op, w, value, MSTATUS_MASK));
    FourModes(Changed(op, w, value, MSTATUS_MASK));
  }

  /** A write to `mstatus`; if it would put the reserved mode into MPP, both bits of MPP stay as they were. */
  lemma StatusBits(csr: Csr, op: Op, value: bv32, n: bv32)
    requires n < 32
    ensures var w := csr.mstatus;
            Bit(WriteCsr(csr, Mstatus, op, value).mstatus, n) <==>
            if (n == 11 || n == 12) && Reserved(op, w, value) then Bit(w, n)
            else NewBit(Mstatus, op, Bit(w, n), Bit(value, n), Writable(Mstatus, n))
  {
    hide Bit, Changed, Mpp, Or, And, Except, Writable, Reserved;
    var w := csr.mstatus;
    var v := Changed(op, w, value, MSTATUS_MASK);
    MaskIsWritable(Mstatus, n);
    ReservedIff(op, w, value);
    ChangedBit(op, w, value, MSTATUS_MASK, n);
    FieldMasks(n);
    BitExcept(v, 0x1800, n);
    BitAnd(w, 0x1800, n);
    BitOr(Except(v, 0x1800), And(w, 0x1800), n);
  }

  lemma MppWritable()
    ensures Writable(Mstatus, 11) && Writable(Mstatus, 12)
  {}

  // ---------- MPRV below M mode ----------

  /** MPRV is never set below M mode. */
  predicate MprvInMachine(h: Hart) { h.priv != M ==> !Bit(h.csr.mstatus, 17) }

  lemma ReturnsKeepMprv(h: Hart)
    ensures MprvInMachine(Mret(h)) && MprvInMachine(Sret(h))
  {
    hide Bit, Mpp, Spp, LeaveM, LeaveS;
    PreviousMode(h.csr.mstatus);
    FourModes(h.csr.mstatus);
    LeaveMBits(h.csr.mstatus, 17);
    LeaveSBits(h.csr.mstatus, 17);
  }

  lemma StatusUntouched(csr: Csr, reg: Reg, op: Op, value: bv32)
    requires reg != Mstatus && reg != Sstatus
    ensures WriteCsr(csr, reg, op, value).mstatus == csr.mstatus
  {
    hide Changed, Merged, ChangedStatus;
    match reg
    case Mip => case MieReg => case Mideleg => case Medeleg =>
    case Mtvec => case Stvec => case SieReg => case Sip =>
  }

  lemma WritesKeepMprv(csr: Csr, reg: Reg, op: Op, value: bv32)
    requires !Bit(csr.mstatus, 17) && reg != Mstatus
    ensures !Bit(WriteCsr(csr, reg, op, value).mstatus, 17)
  {
    hide Bit, WriteCsr, NewBit, Writable;
    if reg == Sstatus {
      NotWritable(op, Bit(value, 17));
      CsrBits(csr, Sstatus, op, value, 17);
    } else {
      StatusUntouched(csr, reg, op, value);
    }
  }

  lemma NotWritable(op: Op, val: bool)
    ensures !Writable(Sstatus, 17) && !NewBit(Sstatus, op, false, val, false)
  {}

  lemma InstructionKeepsMprv(h: Hart, i: Instr)
    requires MprvInMachine(h)
    ensures MprvInMachine(Executed(h, i).0)
  {
    hide Bit, Mret, Sret, WriteCsr, Tsr, Tw;
    match i
    case MretI(_) => ReturnsKeepMprv(h);
    case SretI(_) => ReturnsKeepMprv(h);
    case CsrI(_, reg, op, value) =>
      if h.priv == S && Supervisor(reg) {
        WritesKeepMprv(h.csr, reg, op, value);
      }
    case _ =>
  }

  lemma TrapKeepsMprv(h: Hart, ex: bv32, tval: bv32)
    ensures MprvInMachine(MTrap(h, ex, tval))
    ensures MprvInMachine(h) && h.priv != M ==> MprvInMachine(STrap(h, ex, tval))
  {
    hide Bit, EnterM, EnterS, Vector, Epc;
    EnterSBits(h.csr.mstatus, h.priv, 17);
  }

  lemma TrapsKeepMprv(h: Hart, ex: bv32, tval: bv32)
    requires MprvInMachine(h)
    ensures MprvInMachine(HandleException(h, ex, tval)) && MprvInMachine(TryHandleInterrupt(h, tval))
  {
    hide MprvInMachine, Delegated, Select, MTrap, STrap, Code;
    TrapKeepsMprv(h, ex, tval);
    match Select(h)
    case Nothing =>
    case ToM(c) => TrapKeepsMprv(h, Code(c), tval);
    case ToS(c) => TrapKeepsMprv(h, Code(c), tval); SupervisorTakesFromBelow(h);
  }

  lemma EventKeepsMprv(h: Hart, e: Event)
    requires MprvInMachine(h)
    ensures MprvInMachine(Happen(h, e))
  {
    hide Bit, HandleException, TryHandleInterrupt, Executed, WithBit, WithLine, Follow;
    if e.Cycle? {
      InstructionKeepsMprv(h, e.instr);
      var (h1, exc) := Executed(h, e.instr);
      var (ex, tval) := match exc case Some(p) => p case None => (0, 0);
      TrapsKeepMprv(h1, ex, tval);
      TrapsKeepMprv(h1, ex, 0);
    }
  }

  /** So in every state a run reaches, MPRV is set at most in M mode. */
  lemma {:induction false} RunKeepsMprv(h: Hart, events: seq<Event>)
    requires MprvInMachine(h)
    ensures MprvInMachine(Run(h, events))
    decreases |events|
  {
    hide MprvInMachine, Happen;
    if events != [] {
      EventKeepsMprv(h, events[0]);
      RunKeepsMprv(Happen(h, events[0]), events[1..]);
    }
  }

  // ---------- lines of devices ----------

  /** The bit of `mip` a line stands for. */
  function LineBit(no: nat): (k: bv32)
    ensures k < 32
  {
    if no == 1 then 1 else if no == 3 then 3 else 11
  }

  lemma WithLineIs(w: bv32, no: nat, on: bool)
    ensures WithLine(w, no, on) == WithBit(w, Power(LineBit(no)), on)
  {
    hide WithBit;
    LinePowers();
  }

  lemma LinePowers()
    ensures Power(1) == 0x2 && Power(3) == 0x8 && Power(11) == 0x800
  {}

  /** Line 9 is the external line of S mode; lines 1 and 3 are their bits of `mip`, any other is bit 11. */
  lemma LineBits(h: Hart, no: nat, on: bool, n: bv32)
    requires n < 32
    ensures var r := Signal(h, no, on);
            && (no == 9 ==> r == h.(csr := h.csr.(seip := on)))
            && (no != 9 ==>
                  && r == h.(csr := h.csr.(mip := r.csr.mip))
                  && (Bit(r.csr.mip, n) <==> if n == LineBit(no) then on else Bit(h.csr.mip, n)))
  {
    hide WithBit, Bit, WithLine, LineBit, Power;
    WithLineIs(h.csr.mip, no, on);
    OneBit(h.csr.mip, LineBit(no), Power(LineBit(no)), on, n);
  }

  lemma OneBit(w: bv32, k: bv32, mask: bv32, on: bool, n: bv32)
    requires n < 32 && k < 32 && mask == Power(k)
    ensures Bit(WithBit(w, mask, on), n) <==> if n == k then on else Bit(w, n)
  {
    BitPower(k, n);
    hide Bit, Power;
    BitOr(w, mask, n);
    BitExcept(w, mask, n);
  }
}
