/**
 Traps and interrupts of the RV32 processor: which interrupt is taken, where
 it is handled, what is saved and how a handler returns (sections 3.1.6 to
 3.1.9 and 3.3 of the RISC-V Privileged Architecture).
*/
module Interrupts {
  import opened Options
  import opened Bits
  import opened Status

  datatype Cause = MEI | MSI | MTI | SEI | SSI | STI

  /** Its bit in `mip`, `mie` and `mideleg`, and the low bits of the cause register. */
  function Number(c: Cause): bv32 {
    match c case MEI => 11 case MSI => 3 case MTI => 7 case SEI => 9 case SSI => 1 case STI => 5
  }

  /** The value of the cause register. */
  function Code(c: Cause): bv32 { 0x8000_0000 | Number(c) }

  /** The order in which simultaneous interrupts are taken. */
  function Rank(c: Cause): nat {
    match c case MEI => 0 case MSI => 1 case MTI => 2 case SEI => 3 case SSI => 4 case STI => 5
  }

  const SI_MASK: bv32 := 0x222
  const MI_MASK: bv32 := 0xAAA
  const INTERRUPT: bv32 := 0x8000_0000

  /** Is the bit of this interrupt set? */
  predicate Up(w: bv32, c: Cause) {
    match c
    case MEI => w & 0x800 != 0
    case MSI => w & 0x8 != 0
    case MTI => w & 0x80 != 0
    case SEI => w & 0x200 != 0
    case SSI => w & 0x2 != 0
    case STI => w & 0x20 != 0
  }

  datatype Csr = Csr(
    mstatus: bv32,
    mip: bv32, mie: bv32, mideleg: bv32, medeleg: bv32,
    mtvec: bv32, mepc: bv32, mcause: bv32, mtval: bv32,
    stvec: bv32, sepc: bv32, scause: bv32, stval: bv32,
    seip: bool, stip: bool)

  datatype Hart = Hart(csr: Csr, priv: Priv, pc: bv32, pcNext: bv32, stdby: bool)

  predicate OnlyS(w: bv32) { w & !SI_MASK == 0 }
  predicate VectorMode(w: bv32) { w & 2 == 0 }
  function Follow(pc: bv32): bv32 { pc + 4 }
  function WithBit(w: bv32, bit: bv32, on: bool): bv32 { if on then w | bit else w & !bit }

  // ---------- traps ----------

  predicate IsInterrupt(ex: bv32) { ex & INTERRUPT != 0 }

  /** Where a trap goes; mode 0 is direct, mode 1 vectored. */
  function Vector(tvec: bv32, ex: bv32): bv32 {
    if Mode(tvec) == 1 && IsInterrupt(ex) then Slot(tvec, ex) else Base(tvec)
  }

  function Mode(tvec: bv32): bv32 { tvec & 3 }
  function Base(tvec: bv32): bv32 { tvec & !3 }
  function Slot(tvec: bv32, ex: bv32): bv32 { Base(tvec) + 4 * CauseOf(ex) }
  function CauseOf(ex: bv32): bv32 { ex & !INTERRUPT }

  /** The modes that exist are those without bit 1. */
  lemma ModesThatExist(tvec: bv32)
    ensures VectorMode(tvec) <==> Mode(tvec) == 0 || Mode(tvec) == 1
  {}

  function Epc(h: Hart, ex: bv32): bv32 { if IsInterrupt(ex) then h.pcNext else h.pc }

  function MTrap(h: Hart, ex: bv32, tval: bv32): Hart {
    Hart(h.csr.(mepc := Epc(h, ex), mcause := ex, mtval := tval, mstatus := EnterM(h.csr.mstatus, h.priv)),
         M, h.pc, Vector(h.csr.mtvec, ex), false)
  }

  function STrap(h: Hart, ex: bv32, tval: bv32): Hart {
    Hart(h.csr.(sepc := Epc(h, ex), scause := ex, stval := tval, mstatus := EnterS(h.csr.mstatus, h.priv)),
         S, h.pc, Vector(h.csr.stvec, ex), false)
  }

  predicate Delegated(medeleg: bv32, ex: bv32) { medeleg & ((1 as bv32) << (ex & 0x1F)) != 0 }

  /** Exception `ex` is delegated by bit `ex` of `medeleg`. */
  lemma DelegatedIsBit(medeleg: bv32, ex: bv32)
    requires ex < 32
    ensures Delegated(medeleg, ex) <==> Bit(medeleg, ex)
  {
    hide Bit;
    assert ex & 0x1F == ex;
    BitMask(medeleg, ex);
  }

  function HandleException(h: Hart, ex: bv32, tval: bv32): Hart {
    if Delegated(h.csr.medeleg, ex) && h.priv != M then STrap(h, ex, tval) else MTrap(h, ex, tval)
  }

  // ---------- selection ----------

  /** `mip` with the external and the cycle-compare lines. */
  function Pending(csr: Csr): bv32 {
    Or(Or(csr.mip, if csr.seip then 0x200 else 0), if csr.stip then 0x20 else 0)
  }

  predicate NonePending(csr: Csr) { Pending(csr) == 0 }

  datatype Choice = Nothing | ToM(cause: Cause) | ToS(cause: Cause)

  function MActive(csr: Csr): bv32 { Pending(csr) & csr.mie & !csr.mideleg }

  function SActive(csr: Csr): bv32 { Pending(csr) & csr.mie & SI_MASK }

  /** The tests for M mode, in the order they are made. */
  function FirstForM(h: Hart): Choice {
    var m := MActive(h.csr);
    if h.priv == M && !Mie(h.csr.mstatus) then Nothing
    else if Up(m, MEI) then ToM(MEI)
    else if Up(m, MSI) then ToM(MSI)
    else if Up(m, MTI) then ToM(MTI)
    else if Up(m, SEI) then ToM(SEI)
    else if Up(m, SSI) then ToM(SSI)
    else if Up(m, STI) then ToM(STI)
    else Nothing
  }

  /** The tests for S mode; they do not look at `mideleg`. */
  function FirstForS(h: Hart): Choice {
    var s := SActive(h.csr);
    if !((h.priv == S && Sie(h.csr.mstatus)) || h.priv == U) then Nothing
    else if Up(s, SEI) then ToS(SEI)
    else if Up(s, SSI) then ToS(SSI)
    else if Up(s, STI) then ToS(STI)
    else Nothing
  }

  /** The choice `try_handle_interrupt` makes. */
  function Select(h: Hart): Choice {
    if NonePending(h.csr) then Nothing
    else if FirstForM(h) != Nothing then FirstForM(h)
    else FirstForS(h)
  }

  function TryHandleInterrupt(h: Hart, tval: bv32): Hart {
    match Select(h)
    case Nothing => h
    case ToM(c) => MTrap(h, Code(c), tval)
    case ToS(c) => STrap(h, Code(c), tval)
  }

  /** Pending, enabled and handled in M mode, by section 3.1.9. */
  predicate ForM(h: Hart, c: Cause) {
    && (h.priv != M || Mie(h.csr.mstatus))
    && Up(Pending(h.csr), c) && Up(h.csr.mie, c) && !Up(h.csr.mideleg, c)
  }

  /** Pending, enabled and delegated to S mode. */
  predicate ForS(h: Hart, c: Cause) {
    && ((h.priv == S && Sie(h.csr.mstatus)) || h.priv == U)
    && Up(Pending(h.csr), c) && Up(h.csr.mie, c) && Up(h.csr.mideleg, c)
  }

  /** What the standard asks for: the highest eligible interrupt, M mode first. */
  ghost predicate Highest(h: Hart, choice: Choice) {
    match choice
    case Nothing => forall c :: !ForM(h, c) && !ForS(h, c)
    case ToM(c) => ForM(h, c) && forall d :: ForM(h, d) ==> Rank(c) <= Rank(d)
    case ToS(c) => ForS(h, c) && (forall d :: !ForM(h, d)) && forall d :: ForS(h, d) ==> Rank(c) <= Rank(d)
  }

  lemma SupervisorBits(p: bv32, e: bv32)
    ensures (p & e & 0x222) & 0x200 != 0 <==> p & 0x200 != 0 && e & 0x200 != 0
    ensures (p & e & 0x222) & 0x2 != 0 <==> p & 0x2 != 0 && e & 0x2 != 0
    ensures (p & e & 0x222) & 0x20 != 0 <==> p & 0x20 != 0 && e & 0x20 != 0
  {}

  lemma MachineNotDelegated(d: bv32)
    requires d & !0x222 == 0
    ensures d & 0x800 == 0 && d & 0x8 == 0 && d & 0x80 == 0
  {}

  lemma BothUp(p: bv32, e: bv32, c: Cause)
    ensures Up(p & e, c) <==> Up(p, c) && Up(e, c)
  {
    match c case MEI => case MSI => case MTI => case SEI => case SSI => case STI =>
  }

  lemma ExceptUp(p: bv32, d: bv32, c: Cause)
    ensures Up(p & !d, c) <==> Up(p, c) && !Up(d, c)
  {
    match c case MEI => case MSI => case MTI => case SEI => case SSI => case STI =>
  }

  lemma SupervisorUp(p: bv32, e: bv32, c: Cause)
    requires c == SEI || c == SSI || c == STI
    ensures Up(p & e & SI_MASK, c) <==> Up(p, c) && Up(e, c)
  {
    SupervisorBits(p, e);
    match c case SEI => case SSI => case STI =>
  }

  lemma MActiveBit(csr: Csr, c: Cause)
    ensures Up(MActive(csr), c) <==> Up(Pending(csr), c) && Up(csr.mie, c) && !Up(csr.mideleg, c)
  {
    hide Pending, Up;
    BothUp(Pending(csr), csr.mie, c);
    ExceptUp(Pending(csr) & csr.mie, csr.mideleg, c);
  }

  lemma SActiveBit(csr: Csr, c: Cause)
    requires c == SEI || c == SSI || c == STI
    ensures Up(SActive(csr), c) <==> Up(Pending(csr), c) && Up(csr.mie, c)
  {
    hide Pending, Up;
    SupervisorUp(Pending(csr), csr.mie, c);
  }

  lemma OnlySupervisorDelegated(csr: Csr, c: Cause)
    requires OnlyS(csr.mideleg) && Up(csr.mideleg, c)
    ensures c == SEI || c == SSI || c == STI
  {
    MachineNotDelegated(csr.mideleg);
    match c case MEI => case MSI => case MTI => case _ =>
  }

  lemma NothingPending(csr: Csr, c: Cause)
    requires NonePending(csr)
    ensures !Up(Pending(csr), c)
  {
    hide Pending;
    ZeroUp(c);
  }

  lemma ZeroUp(c: Cause)
    ensures !Up(0, c)
  {}

  lemma FirstForMIsHighest(h: Hart)
    ensures match FirstForM(h)
            case ToM(c) => ForM(h, c) && forall d :: ForM(h, d) ==> Rank(c) <= Rank(d)
            case Nothing => forall d :: !ForM(h, d)
            case ToS(_) => false
  {
    hide Pending, MActive, Up, Mie;
    forall c ensures Up(MActive(h.csr), c) <==> Up(Pending(h.csr), c) && Up(h.csr.mie, c) && !Up(h.csr.mideleg, c) {
      MActiveBit(h.csr, c);
    }
    forall d | FirstForM(h) == Nothing ensures !ForM(h, d) {
      match d case MEI => case MSI => case MTI => case SEI => case SSI => case STI =>
    }
  }

  /** With nothing left for M mode, what is pending and enabled is delegated. */
  lemma FirstForSIsHighest(h: Hart)
    requires OnlyS(h.csr.mideleg) && forall d :: !ForM(h, d)
    ensures match FirstForS(h)
            case ToS(c) => ForS(h, c) && forall d :: ForS(h, d) ==> Rank(c) <= Rank(d)
            case Nothing => forall d :: !ForS(h, d)
            case ToM(_) => false
  {
    hide Pending, SActive, Up, Sie, Mie, OnlyS;
    forall c | c == SEI || c == SSI || c == STI
      ensures Up(SActive(h.csr), c) <==> Up(Pending(h.csr), c) && Up(h.csr.mie, c)
    {
      SActiveBit(h.csr, c);
    }
    forall c | Up(h.csr.mideleg, c) ensures c == SEI || c == SSI || c == STI {
      OnlySupervisorDelegated(h.csr, c);
    }
    assert !ForM(h, SEI) && !ForM(h, SSI) && !ForM(h, STI);
  }

  /**
   The chain of tests takes exactly the interrupt the standard asks for, and
   takes none only when none is eligible.  The S part never looks at
   `mideleg`, yet what it takes is always delegated.
  */
  lemma SelectIsHighest(h: Hart)
    requires OnlyS(h.csr.mideleg)
    ensures Highest(h, Select(h))
  {
    hide Pending, NonePending, OnlyS, FirstForM, FirstForS, Up, Mie, Sie;
    FirstForMIsHighest(h);
    if FirstForM(h) == Nothing {
      FirstForSIsHighest(h);
    }
    if NonePending(h.csr) {
      forall c ensures !Up(Pending(h.csr), c) { NothingPending(h.csr, c); }
    }
  }

  /** The choice the standard asks for is unique. */
  lemma HighestIsUnique(h: Hart, a: Choice, b: Choice)
    requires Highest(h, a) && Highest(h, b)
    ensures a == b
  {
    hide ForM, ForS;
  }

  // ---------- what a trap does ----------

  /** A trap never lowers the privilege. */
  lemma TrapsRaise(h: Hart, ex: bv32, tval: bv32)
    ensures Level(HandleException(h, ex, tval).priv) >= Level(h.priv)
    ensures Level(TryHandleInterrupt(h, tval).priv) >= Level(h.priv)
  {
    hide Delegated, Select, MTrap, STrap, Code;
    TrapModes(h, ex, tval);
    match Select(h)
    case Nothing =>
    case ToM(c) => TrapModes(h, Code(c), tval);
    case ToS(c) => TrapModes(h, Code(c), tval); SupervisorTakesFromBelow(h);
  }

  lemma TrapModes(h: Hart, ex: bv32, tval: bv32)
    ensures MTrap(h, ex, tval).priv == M && STrap(h, ex, tval).priv == S
  {
    hide Vector, EnterM, EnterS, Epc;
  }

  lemma SupervisorTakesFromBelow(h: Hart)
    requires Select(h).ToS?
    ensures h.priv != M
  {
    hide Up, NonePending, Mie, Sie, MActive, SActive;
  }

  // ---------- returning ----------

  function Mret(h: Hart): Hart
  {
    h.(csr := h.csr.(mstatus := LeaveM(h.csr.mstatus)), priv := PrivOf(Mpp(h.csr.mstatus)), pcNext := h.csr.mepc)
  }

  function Sret(h: Hart): Hart {
    h.(csr := h.csr.(mstatus := LeaveS(h.csr.mstatus)),
       priv := if Spp(h.csr.mstatus) then S else U,
       pcNext := h.csr.sepc)
  }

  /** MRET undoes a trap to M mode: the mode, the interrupt enable and the place to go on from. */
  lemma MretUndoesTrap(h: Hart, ex: bv32, tval: bv32)
    ensures var r := Mret(MTrap(h, ex, tval));
            && r.priv == h.priv && Mie(r.csr.mstatus) == Mie(h.csr.mstatus)
            && r.pcNext == (if IsInterrupt(ex) then h.pcNext else h.pc)
            && !Mie(MTrap(h, ex, tval).csr.mstatus)
  {
    hide EnterM, LeaveM, Mie, Mpie, Mpp, PrivOf, Vector, IsInterrupt;
    EnterMSaves(h.csr.mstatus, h.priv);
    LeaveMRestores(EnterM(h.csr.mstatus, h.priv));
  }

  /** SRET undoes a trap to S mode, which only S and U mode take. */
  lemma SretUndoesTrap(h: Hart, ex: bv32, tval: bv32)
    requires h.priv != M
    ensures var r := Sret(STrap(h, ex, tval));
            && r.priv == h.priv && Sie(r.csr.mstatus) == Sie(h.csr.mstatus)
            && r.pcNext == (if IsInterrupt(ex) then h.pcNext else h.pc)
            && !Sie(STrap(h, ex, tval).csr.mstatus)
  {
    hide EnterS, LeaveS, Sie, Spie, Spp, Vector, IsInterrupt;
    EnterSSaves(h.csr.mstatus, h.priv);
    LeaveSRestores(EnterS(h.csr.mstatus, h.priv));
  }

  /** S mode is entered only with a delegated cause, from S or U mode, so SRET can always undo it. */
  lemma SupervisorTrapsAreDelegated(h: Hart)
    requires OnlyS(h.csr.mideleg) && Select(h).ToS?
    ensures Up(h.csr.mideleg, Select(h).cause) && h.priv != M
  {
    hide Select, Up, Pending, Mie, Sie, OnlyS;
    SelectIsHighest(h);
  }

  // ---------- instructions that touch this state ----------

  datatype Op = Write | Set | Clear

  datatype Reg = Mstatus | Mip | MieReg | Mideleg | Medeleg | Mtvec | Stvec | Sstatus | SieReg | Sip

  /** The registers S mode may write. */
  predicate Supervisor(r: Reg) { r == Stvec || r == Sstatus || r == SieReg || r == Sip }

  function Changed(op: Op, current: bv32, value: bv32, mask: bv32): bv32 {
    match op
    case Write => And(value, mask)
    case Set => Or(current, And(value, mask))
    case Clear => Except(current, And(value, mask))
  }

  /** Only the bits of the mask are replaced. */
  function Merged(op: Op, current: bv32, value: bv32, mask: bv32): bv32 {
    if op == Write then Or(Except(current, mask), And(value, mask)) else Changed(op, current, value, mask)
  }

  const MSTATUS_MASK: bv32 := 0x007E_19AA
  const SSTATUS_MASK: bv32 := 0x000C_0122
  const SSI_MASK: bv32 := 0x2
  const MEDELEG_MASK: bv32 := 0xB3FF

  /** Writes that would put the reserved mode into MPP leave MPP alone. */
  function ChangedStatus(op: Op, current: bv32, value: bv32): bv32 {
    var w := Changed(op, current, value, MSTATUS_MASK);
    if Mpp(w) == 2 then Or(Except(w, 0x1800), And(current, 0x1800)) else w
  }

  function WriteCsr(csr: Csr, reg: Reg, op: Op, value: bv32): Csr {
    match reg
    case Mstatus => csr.(mstatus := ChangedStatus(op, csr.mstatus, value))
    case Mip => csr.(mip := Changed(op, csr.mip, value, SI_MASK))
    case MieReg => csr.(mie := Changed(op, csr.mie, value, MI_MASK))
    case Mideleg => csr.(mideleg := Changed(op, csr.mideleg, value, SI_MASK))
    case Medeleg => csr.(medeleg := Changed(op, csr.medeleg, value, MEDELEG_MASK))
    case Mtvec => csr.(mtvec := Changed(op, csr.mtvec, value, !2))
    case Stvec => csr.(stvec := Changed(op, csr.stvec, value, !2))
    case Sstatus => csr.(mstatus := Changed(op, csr.mstatus, value, SSTATUS_MASK))
    case SieReg => csr.(mie := Merged(op, csr.mie, value, SI_MASK))
    case Sip => csr.(mip := Merged(op, csr.mip, value, SSI_MASK))
  }

  /**
   `word` is the encoding, which a refused instruction reports; everything else is a
   change of the next program counter, or an exception.
  */
  datatype Instr =
    | GoTo(target: bv32)
    | Raises(code: bv32, tval: bv32)
    | MretI(word: bv32)
    | SretI(word: bv32)
    | Wfi(word: bv32)
    | CsrI(word: bv32, reg: Reg, op: Op, value: bv32)

  const ILLEGAL: bv32 := 2

  /** The state after the instruction and the exception it raised, if any. */
  function Execute(h: Hart, i: Instr): (Hart, Option<(bv32, bv32)>) {
    match i
    case GoTo(target) => (h.(pcNext := target), None)
    case Raises(code, tval) => (h, Some((code & 0x1F, tval)))
    case MretI(word) => if h.priv == M then (Mret(h), None) else (h, Some((ILLEGAL, word)))
    case SretI(word) => if !Tsr(h.csr.mstatus) && h.priv != U then (Sret(h), None) else (h, Some((ILLEGAL, word)))
    case Wfi(word) =>
      if (Tw(h.csr.mstatus) && h.priv != M) || h.priv == U then (h, Some((ILLEGAL, word)))
      else (h.(stdby := true), None)
    case CsrI(word, reg, op, value) =>
      if h.priv == M || (Supervisor(reg) && h.priv == S) then (h.(csr := WriteCsr(h.csr, reg, op, value)), None)
      else (h, Some((ILLEGAL, word)))
  }

  /** The timers are looked at after the instruction. */
  function Timers(h: Hart, stip: bool, mtip: bool): Hart {
    h.(csr := h.csr.(stip := stip, mip := WithBit(h.csr.mip, 0x80, mtip)))
  }

  function Retire(h: Hart): Hart { if h.stdby then h else h.(pc := h.pcNext, pcNext := Follow(h.pcNext)) }

  function Executed(h: Hart, i: Instr): (Hart, Option<(bv32, bv32)>) {
    if h.stdby then (h, None) else Execute(h, i)
  }

  /** `rv32_cpu_step` */
  function Step(h: Hart, i: Instr, stip: bool, mtip: bool): Hart {
    var (h1, exc) := Executed(h, i);
    var h2 := match exc case Some((ex, tval)) => HandleException(h1, ex, tval) case None => TryHandleInterrupt(h1, 0);
    Retire(Timers(h2, stip, mtip))
  }

  // ---------- what every run keeps ----------

  /**
   Only S interrupts are delegated, the vector modes are the two that exist,
   MPP is a mode that exists, and the next instruction is the following one.
  */
  predicate Kept(h: Hart) { KeptCsr(h.csr) && h.pcNext == Follow(h.pc) }

  predicate KeptCsr(csr: Csr) {
    OnlyS(csr.mideleg) && VectorMode(csr.mtvec) && VectorMode(csr.stvec) && GoodMpp(csr.mstatus)
  }

  lemma StatusKeepsMpp(op: Op, w: bv32, value: bv32)
    requires GoodMpp(w)
    ensures GoodMpp(ChangedStatus(op, w, value))
  {
    hide Changed;
    MppMerge(Changed(op, w, value, MSTATUS_MASK), w);
  }

  lemma SstatusKeepsMpp(op: Op, w: bv32, value: bv32)
    requires GoodMpp(w)
    ensures GoodMpp(Changed(op, w, value, SSTATUS_MASK))
  {
    match op
    case Write => SstatusWritten(value);
    case Set => SstatusSet(w, value);
    case Clear => SstatusCleared(w, value);
  }

  lemma SstatusWritten(v: bv32)
    ensures Mpp(v & 0x000C_0122) == 0
  {}

  lemma SstatusSet(w: bv32, v: bv32)
    ensures Mpp(w | (v & 0x000C_0122)) == Mpp(w)
  {}

  lemma SstatusCleared(w: bv32, v: bv32)
    ensures Mpp(w & !(v & 0x000C_0122)) == Mpp(w)
  {}

  lemma MppMerge(x: bv32, y: bv32)
    ensures Mpp(Or(Except(x, 0x1800), And(y, 0x1800))) == Mpp(y)
  {}

  lemma ChangedInside(op: Op, w: bv32, value: bv32, mask: bv32, out: bv32)
    requires w & out == 0 && mask & out == 0
    ensures Changed(op, w, value, mask) & out == 0
  {
    match op case Write => case Set => case Clear =>
  }

  lemma WriteCsrKeeps(csr: Csr, reg: Reg, op: Op, value: bv32)
    requires KeptCsr(csr)
    ensures KeptCsr(WriteCsr(csr, reg, op, value))
  {
    hide Changed, ChangedStatus, GoodMpp;
    match reg
    case Mstatus => StatusKeepsMpp(op, csr.mstatus, value);
    case Mideleg => ChangedInside(op, csr.mideleg, value, SI_MASK, !SI_MASK);
    case Mtvec => ChangedInside(op, csr.mtvec, value, !2, 2);
    case Stvec => ChangedInside(op, csr.stvec, value, !2, 2);
    case Sstatus => SstatusKeepsMpp(op, csr.mstatus, value);
    case _ =>
  }

  lemma TrapKeeps(h: Hart, ex: bv32, tval: bv32)
    requires KeptCsr(h.csr)
    ensures KeptCsr(MTrap(h, ex, tval).csr) && KeptCsr(STrap(h, ex, tval).csr)
  {
    hide EnterM, EnterS, Vector, Epc, Mpp, PrivOf, Mie, Mpie, OnlyS, VectorMode, GoodMpp;
    EnterMSaves(h.csr.mstatus, h.priv);
    EnterSSpares(h.csr.mstatus, h.priv);
  }

  lemma ReturnKeeps(h: Hart)
    requires KeptCsr(h.csr)
    ensures KeptCsr(Mret(h).csr) && KeptCsr(Sret(h).csr)
  {
    hide LeaveM, LeaveS, Mpp, Spp, PrivOf, Mie, Mpie, Sie, Spie, OnlyS, VectorMode, GoodMpp;
    LeaveMRestores(h.csr.mstatus);
    LeaveSRestores(h.csr.mstatus);
  }

  lemma ExecuteKeeps(h: Hart, i: Instr)
    requires KeptCsr(h.csr)
    ensures KeptCsr(Execute(h, i).0.csr)
  {
    hide KeptCsr, Mret, Sret, WriteCsr, Tsr, Tw;
    match i
    case MretI(_) => ReturnKeeps(h);
    case SretI(_) => ReturnKeeps(h);
    case CsrI(_, reg, op, value) => WriteCsrKeeps(h.csr, reg, op, value);
    case _ =>
  }

  lemma HandlersKeep(h: Hart, ex: bv32, tval: bv32)
    requires KeptCsr(h.csr)
    ensures KeptCsr(HandleException(h, ex, tval).csr) && KeptCsr(TryHandleInterrupt(h, tval).csr)
  {
    hide KeptCsr, MTrap, STrap, Select, Delegated, Code;
    TrapKeeps(h, ex, tval);
    match Select(h)
    case Nothing =>
    case ToM(c) => TrapKeeps(h, Code(c), tval);
    case ToS(c) => TrapKeeps(h, Code(c), tval);
  }

  lemma TimersKeep(h: Hart, stip: bool, mtip: bool)
    requires KeptCsr(h.csr)
    ensures KeptCsr(Timers(h, stip, mtip).csr)
  {
    hide GoodMpp, OnlyS, VectorMode, WithBit;
  }

  /** Standby: asleep, and the next instruction is the one after WFI. */
  lemma AsleepAfterWfi(h: Hart, i: Instr)
    requires h.pcNext == Follow(h.pc)
    ensures var h1 := Executed(h, i).0; h1.pc == h.pc && (h1.stdby ==> h1.pcNext == Follow(h.pc))
  {
    hide LeaveM, LeaveS, Mpp, Spp, PrivOf, WriteCsr, Tsr, Tw, Follow;
  }

  lemma HandlersPc(h: Hart, ex: bv32, tval: bv32)
    ensures HandleException(h, ex, tval).pc == h.pc && !HandleException(h, ex, tval).stdby
    ensures TryHandleInterrupt(h, tval).pc == h.pc
    ensures TryHandleInterrupt(h, tval).stdby ==> TryHandleInterrupt(h, tval) == h
  {
    hide Select, Delegated, Code, Vector, EnterM, EnterS, Epc;
  }

  lemma StepKeeps(h: Hart, i: Instr, stip: bool, mtip: bool)
    requires Kept(h)
    ensures Kept(Step(h, i, stip, mtip))
  {
    hide KeptCsr, Execute, HandleException, TryHandleInterrupt, Follow, WithBit;
    var (h1, exc) := Executed(h, i);
    ExecuteKeeps(h, i);
    AsleepAfterWfi(h, i);
    var (ex, tval) := match exc case Some(p) => p case None => (0, 0);
    HandlersKeep(h1, ex, tval);
    HandlersPc(h1, ex, tval);
    var h2 := if exc.Some? then HandleException(h1, ex, tval) else TryHandleInterrupt(h1, 0);
    TimersKeep(h2, stip, mtip);
  }

  /** Devices raise and lower lines; unknown numbers mean the machine external interrupt. */
  function Line(no: nat): Cause { if no == 1 then SSI else if no == 3 then MSI else MEI }

  function WithLine(w: bv32, no: nat, on: bool): bv32 {
    match Line(no)
    case SSI => WithBit(w, 0x2, on)
    case MSI => WithBit(w, 0x8, on)
    case _ => WithBit(w, 0x800, on)
  }

  /** `rv32_interrupt_up` and `rv32_interrupt_down` */
  function Signal(h: Hart, no: nat, on: bool): Hart {
    if no == 9 then h.(csr := h.csr.(seip := on))
    else h.(csr := h.csr.(mip := WithLine(h.csr.mip, no, on)))
  }

  datatype Event = Cycle(instr: Instr, stip: bool, mtip: bool) | LineChange(no: nat, on: bool)

  function Happen(h: Hart, e: Event): Hart {
    match e
    case Cycle(i, stip, mtip) => Step(h, i, stip, mtip)
    case LineChange(no, on) => Signal(h, no, on)
  }

  lemma HappenKeeps(h: Hart, e: Event)
    requires Kept(h)
    ensures Kept(Happen(h, e))
  {
    hide Step, Signal, Kept;
    match e
    case Cycle(i, stip, mtip) => StepKeeps(h, i, stip, mtip);
    case LineChange(no, on) => SignalKeeps(h, no, on);
  }

  lemma SignalKeeps(h: Hart, no: nat, on: bool)
    requires Kept(h)
    ensures Kept(Signal(h, no, on))
  {
    hide GoodMpp, OnlyS, VectorMode, WithLine, Follow;
  }

  function Run(h: Hart, events: seq<Event>): Hart
    decreases |events|
  {
    if events == [] then h else Run(Happen(h, events[0]), events[1..])
  }

  /** So in every state a run reaches, the interrupt taken is the one the standard asks for. */
  lemma {:induction false} RunSelectsHighest(h: Hart, events: seq<Event>)
    requires Kept(h)
    ensures Kept(Run(h, events)) && Highest(Run(h, events), Select(Run(h, events)))
    decreases |events|
  {
    hide Happen, Select, Highest;
    if events == [] {
      SelectIsHighest(h);
    } else {
      HappenKeeps(h, events[0]);
      RunSelectsHighest(Happen(h, events[0]), events[1..]);
    }
  }

  // ---------- where an interrupted program goes on ----------

  /** Where the program stands after the step if no interrupt comes. */
  function NextPc(h: Hart, i: Instr): bv32 {
    var h1 := Executed(h, i).0;
    if h1.stdby then Follow(h.pc) else Retire(h1).pc
  }

  /** The saved program counter: of the instruction due next, or the one after WFI, or the faulting one itself. */
  lemma SavedPc(h: Hart, i: Instr, stip: bool, mtip: bool)
    requires Kept(h)
    ensures var (h1, exc) := Executed(h, i);
            var r := Step(h, i, stip, mtip);
            match exc
            case Some((ex, tval)) =>
              if Bit(h1.csr.medeleg, ex) && h1.priv != M
              then r.priv == S && (r.csr.sepc, r.csr.scause, r.csr.stval) == (h.pc, ex, tval)
              else r.priv == M && (r.csr.mepc, r.csr.mcause, r.csr.mtval) == (h.pc, ex, tval)
            case None =>
              match Select(h1)
              case ToM(c) => r.csr.mepc == NextPc(h, i) && r.priv == M && r.csr.mcause == Code(c)
              case ToS(c) => r.csr.sepc == NextPc(h, i) && r.priv == S && r.csr.scause == Code(c)
              case Nothing => !h1.stdby ==> r.pc == NextPc(h, i)
  {
    hide Select, Bit, Code, Executed, NextPc, Step, KeptCsr, IsInterrupt;
    if Executed(h, i).1.Some? {
      SavedByException(h, i, stip, mtip);
    } else {
      SavedByInterrupt(h, i, stip, mtip);
    }
  }

  lemma SavedByException(h: Hart, i: Instr, stip: bool, mtip: bool)
    requires Kept(h) && Executed(h, i).1.Some?
    ensures var (h1, exc) := Executed(h, i);
            var (ex, tval) := exc.value;
            var r := Step(h, i, stip, mtip);
            if Bit(h1.csr.medeleg, ex) && h1.priv != M
            then r.priv == S && (r.csr.sepc, r.csr.scause, r.csr.stval) == (h.pc, ex, tval)
            else r.priv == M && (r.csr.mepc, r.csr.mcause, r.csr.mtval) == (h.pc, ex, tval)
  {
    hide Select, Delegated, Bit, Code, Vector, EnterM, EnterS, KeptCsr, Execute, IsInterrupt, Follow, WithBit;
    AsleepAfterWfi(h, i);
    CodeIsException(h, i);
    DelegatedIsBit(Executed(h, i).0.csr.medeleg, Executed(h, i).1.value.0);
  }

  lemma SavedByInterrupt(h: Hart, i: Instr, stip: bool, mtip: bool)
    requires Kept(h) && Executed(h, i).1.None?
    ensures var h1 := Executed(h, i).0;
            var r := Step(h, i, stip, mtip);
            match Select(h1)
            case ToM(c) => r.csr.mepc == NextPc(h, i) && r.priv == M && r.csr.mcause == Code(c)
            case ToS(c) => r.csr.sepc == NextPc(h, i) && r.priv == S && r.csr.scause == Code(c)
            case Nothing => !h1.stdby ==> r.pc == NextPc(h, i)
  {
    hide Select, Delegated, Code, Vector, EnterM, EnterS, KeptCsr, Execute, IsInterrupt, Follow, WithBit;
    AsleepAfterWfi(h, i);
    match Select(Executed(h, i).0)
    case Nothing =>
    case ToM(c) => NumberIsInterrupt(c);
    case ToS(c) => NumberIsInterrupt(c);
  }

  lemma NumberIsInterrupt(c: Cause)
    ensures IsInterrupt(Code(c))
  {
    match c case MEI => case MSI => case MTI => case SEI => case SSI => case STI =>
  }

  lemma CodeIsException(h: Hart, i: Instr)
    requires Executed(h, i).1.Some?
    ensures !IsInterrupt(Executed(h, i).1.value.0) && Executed(h, i).1.value.0 < 32
  {
    hide Mret, Sret, WriteCsr, Tsr, Tw;
  }

  /** Privilege is given up only by MRET and SRET. */
  lemma PrivilegeDropsOnlyByReturn(h: Hart, i: Instr, stip: bool, mtip: bool)
    requires h.stdby || !(i.MretI? || i.SretI?)
    ensures Level(Step(h, i, stip, mtip).priv) >= Level(h.priv)
  {
    hide HandleException, TryHandleInterrupt, Follow, WithBit, Mret, Sret, WriteCsr, Tsr, Tw;
    var (h1, exc) := Executed(h, i);
    match exc
    case Some((ex, tval)) => TrapsRaise(h1, ex, tval);
    case None => TrapsRaise(h1, 0, 0);
  }

  // ---------- standby ----------

  /** A waiting processor wakes exactly when an interrupt is taken. */
  lemma WakesIff(h: Hart, i: Instr, stip: bool, mtip: bool)
    requires Kept(h) && h.stdby
    ensures var r := Step(h, i, stip, mtip);
            && (!r.stdby <==> exists c :: ForM(h, c) || ForS(h, c))
            && (r.stdby ==> r.pc == h.pc && r.priv == h.priv)
  {
    hide Step, KeptCsr, ForM, ForS, Select, Follow, OnlyS;
    KeptDelegation(h.csr);
    SelectIsHighest(h);
    AsleepStep(h, i, stip, mtip);
  }

  lemma AsleepStep(h: Hart, i: Instr, stip: bool, mtip: bool)
    requires h.stdby
    ensures var r := Step(h, i, stip, mtip);
            (r.stdby <==> Select(h) == Nothing) && (r.stdby ==> r.pc == h.pc && r.priv == h.priv)
  {
    hide Vector, EnterM, EnterS, Code, Epc, Select, Follow, WithBit, Execute, HandleException;
  }

  lemma KeptDelegation(csr: Csr)
    requires KeptCsr(csr)
    ensures OnlyS(csr.mideleg)
  {}

  /**
   So, unlike the standard's WFI, one waiting in M mode with interrupts disabled sleeps
   through pending enabled ones.
  */
  lemma SleepsWhenDisabled(h: Hart, i: Instr, stip: bool, mtip: bool)
    requires Kept(h) && h.stdby && h.priv == M && !Mie(h.csr.mstatus)
    ensures Step(h, i, stip, mtip).stdby
  {
    hide Step, KeptCsr, Up, Pending, Mie, Sie;
    WakesIff(h, i, stip, mtip);
  }

  /**
   A write to `mip` drops pending machine interrupts, which the standard keeps
   read-only; setting and clearing bits do not.
  */
  lemma MipWriteIff(csr: Csr, op: Op, value: bv32, c: Cause)
    requires c == MEI || c == MSI || c == MTI
    ensures Up(WriteCsr(csr, Mip, op, value).mip, c) <==> op != Write && Up(csr.mip, c)
  {
    hide Up, Changed;
    MachineBitsOf(op, csr.mip, value, c);
  }

  /** So writing 0 to `mip` drops a pending timer interrupt. */
  lemma MipDropsTimer(csr: Csr)
    requires csr.mip == 0x80
    ensures Up(csr.mip, MTI) && !Up(WriteCsr(csr, Mip, Write, 0).mip, MTI)
  {
    MipWriteIff(csr, Write, 0, MTI);
  }

  lemma MachineBitsOf(op: Op, w: bv32, value: bv32, c: Cause)
    requires c == MEI || c == MSI || c == MTI
    ensures Up(Changed(op, w, value, SI_MASK), c) <==> op != Write && Up(w, c)
  {
    hide Up, And, Or, Except;
    WriteBits(value, c);
    SetBits(w, value, c);
    ClearBits(w, value, c);
  }

  lemma WriteBits(v: bv32, c: Cause)
    requires c == MEI || c == MSI || c == MTI
    ensures !Up(And(v, SI_MASK), c)
  {
    match c case MEI => case MSI => case MTI =>
  }

  lemma SetBits(w: bv32, v: bv32, c: Cause)
    requires c == MEI || c == MSI || c == MTI
    ensures Up(Or(w, And(v, SI_MASK)), c) <==> Up(w, c)
  {
    match c case MEI => case MSI => case MTI =>
  }

  lemma ClearBits(w: bv32, v: bv32, c: Cause)
    requires c == MEI || c == MSI || c == MTI
    ensures Up(Except(w, And(v, SI_MASK)), c) <==> Up(w, c)
  {
    match c case MEI => case MSI => case MTI =>
  }

  // ---------- a write to sstatus ----------

  /** The fields of `mstatus` that belong to M mode. */
  function MachineFields(w: bv32): bv32 { w & 0x0072_1888 }

  /**
   A change of `sstatus` leaves the fields of M mode alone exactly when it sets or
   clears bits, or they are all zero.
  */
  lemma SstatusWriteIff(csr: Csr, op: Op, value: bv32)
    ensures MachineFields(WriteCsr(csr, Sstatus, op, value).mstatus) == MachineFields(csr.mstatus) <==>
            op != Write || MachineFields(csr.mstatus) == 0
  {
    hide MachineFields, Changed;
    MachineFieldsOf(op, csr.mstatus, value);
  }

  lemma MachineFieldsOf(op: Op, w: bv32, value: bv32)
    ensures MachineFields(Changed(op, w, value, SSTATUS_MASK)) == if op == Write then 0 else MachineFields(w)
  {
    match op
    case Write => FieldsWritten(value);
    case Set => FieldsSet(w, value);
    case Clear => FieldsCleared(w, value);
  }

  lemma FieldsWritten(v: bv32)
    ensures (v & 0x000C_0122) & 0x0072_1888 == 0
  {}

  lemma FieldsSet(w: bv32, v: bv32)
    ensures (w | (v & 0x000C_0122)) & 0x0072_1888 == w & 0x0072_1888
  {}

  lemma FieldsCleared(w: bv32, v: bv32)
    ensures (w & !(v & 0x000C_0122)) & 0x0072_1888 == w & 0x0072_1888
  {}

  /** A supervisor that writes 0 to `sstatus` disables the interrupts of M mode. */
  lemma SstatusDropsMie(h: Hart, word: bv32)
    requires h.priv == S && Mie(h.csr.mstatus) && !h.stdby
    ensures !Mie(Execute(h, CsrI(word, Sstatus, Write, 0)).0.csr.mstatus)
  {
    ZeroHasNoMie();
  }

  lemma ZeroHasNoMie()
    ensures !Mie(0 & SSTATUS_MASK)
  {}
}
