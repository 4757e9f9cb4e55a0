/** The same processor as an object: traps and the step update its fields one after the other. */
module InterruptCore {
  import opened Options
  import opened Bits
  import opened Status
  import opened Interrupts

  class Core {
    var csr: Csr
    var priv: Priv
    var pc: bv32
    var pcNext: bv32
    var stdby: bool

    ghost function View(): Hart
      reads this
    {
      Hart(csr, priv, pc, pcNext, stdby)
    }

    /** Where a trap goes; a reserved vector mode trips an assertion. */
    static method Target(tvec: bv32, ex: bv32) returns (ok: bool, target: bv32)
      ensures target == Vector(tvec, ex) && ok == VectorMode(tvec)
    {
      hide Mode, Base, Slot, VectorMode, IsInterrupt;
      ModesThatExist(tvec);
      ok, target := true, Base(tvec);
      if Mode(tvec) == 0 {
        return;
      } else if Mode(tvec) == 1 {
        if IsInterrupt(ex) {
          target := Slot(tvec, ex);
        }
      } else {
        ok := false;
      }
    }

    method TrapToM(ex: bv32, tval: bv32) returns (ok: bool)
      modifies this
      ensures View() == MTrap(old(View()), ex, tval) && ok == VectorMode(old(csr).mtvec)
    {
      hide IsInterrupt, EnterM, Vector, VectorMode;
      stdby := false;
      csr := csr.(mepc := if IsInterrupt(ex) then pcNext else pc);
      csr := csr.(mcause := ex, mtval := tval);
      csr := csr.(mstatus := EnterM(csr.mstatus, priv));
      priv := M;
      ok, pcNext := Target(csr.mtvec, ex);
    }

    method TrapToS(ex: bv32, tval: bv32) returns (ok: bool)
      modifies this
      ensures View() == STrap(old(View()), ex, tval) && ok == VectorMode(old(csr).stvec)
    {
      hide IsInterrupt, EnterS, Vector, VectorMode;
      stdby := false;
      csr := csr.(sepc := if IsInterrupt(ex) then pcNext else pc);
      csr := csr.(scause := ex, stval := tval);
      csr := csr.(mstatus := EnterS(csr.mstatus, priv));
      priv := S;
      ok, pcNext := Target(csr.stvec, ex);
    }

    /** `try_handle_interrupt` */
    method TryInterrupt() returns (ok: bool)
      modifies this
      ensures View() == TryHandleInterrupt(old(View()), 0)
      ensures ok == match Select(old(View()))
                    case Nothing => true
                    case ToM(_) => VectorMode(old(csr).mtvec)
                    case ToS(_) => VectorMode(old(csr).stvec)
    {
      hide Up, NonePending, Mie, Sie, MActive, SActive, MTrap, STrap, Code, VectorMode;
      ok := true;
      if NonePending(csr) {
        return;
      }
      if (priv == M && Mie(csr.mstatus)) || priv != M {
        var m := MActive(csr);
        if Up(m, MEI) { ok := TrapToM(Code(MEI), 0); return; }
        if Up(m, MSI) { ok := TrapToM(Code(MSI), 0); return; }
        if Up(m, MTI) { ok := TrapToM(Code(MTI), 0); return; }
        if Up(m, SEI) { ok := TrapToM(Code(SEI), 0); return; }
        if Up(m, SSI) { ok := TrapToM(Code(SSI), 0); return; }
        if Up(m, STI) { ok := TrapToM(Code(STI), 0); return; }
      }
      if (priv == S && Sie(csr.mstatus)) || priv == U {
        var s := SActive(csr);
        if Up(s, SEI) { ok := TrapToS(Code(SEI), 0); return; }
        if Up(s, SSI) { ok := TrapToS(Code(SSI), 0); return; }
        if Up(s, STI) { ok := TrapToS(Code(STI), 0); return; }
      }
    }

    method Exception(ex: bv32, tval: bv32) returns (ok: bool)
      modifies this
      ensures View() == HandleException(old(View()), ex, tval)
      ensures var toS := Delegated(old(csr).medeleg, ex) && old(priv) != M;
              ok == VectorMode(if toS then old(csr).stvec else old(csr).mtvec)
      ensures ex < 32 ==> priv == if Bit(old(csr).medeleg, ex) && old(priv) != M then S else M
    {
      hide Delegated, Bit, MTrap, STrap, VectorMode;
      if ex < 32 {
        DelegatedIsBit(csr.medeleg, ex);
      }
      TrapModes(View(), ex, tval);
      if Delegated(csr.medeleg, ex) && priv != M {
        ok := TrapToS(ex, tval);
      } else {
        ok := TrapToM(ex, tval);
      }
    }

    /** The instruction itself. */
    method Execute(i: Instr) returns (exc: Option<(bv32, bv32)>)
      modifies this
      ensures (View(), exc) == Interrupts.Execute(old(View()), i)
    {
      hide LeaveM, LeaveS, Mpp, Spp, PrivOf, WriteCsr, Tsr, Tw;
      exc := None;
      match i {
        case GoTo(target) => pcNext := target;
        case Raises(code, tval) => exc := Some((code & 0x1F, tval));
        case MretI(word) =>
          if priv == M {
            priv, pcNext, csr := PrivOf(Mpp(csr.mstatus)), csr.mepc, csr.(mstatus := LeaveM(csr.mstatus));
          } else {
            exc := Some((ILLEGAL, word));
          }
        case SretI(word) =>
          if !Tsr(csr.mstatus) && priv != U {
            priv, pcNext, csr := if Spp(csr.mstatus) then S else U, csr.sepc, csr.(mstatus := LeaveS(csr.mstatus));
          } else {
            exc := Some((ILLEGAL, word));
          }
        case Wfi(word) =>
          if (Tw(csr.mstatus) && priv != M) || priv == U {
            exc := Some((ILLEGAL, word));
          } else {
            stdby := true;
          }
        case CsrI(word, reg, op, value) =>
          if priv == M || (Supervisor(reg) && priv == S) {
            csr := WriteCsr(csr, reg, op, value);
          } else {
            exc := Some((ILLEGAL, word));
          }
      }
    }

    /** `rv32_cpu_step`; in the states a run reaches no assertion trips. */
    method Step(i: Instr, stip: bool, mtip: bool) returns (ok: bool)
      modifies this
      ensures View() == Interrupts.Step(old(View()), i, stip, mtip)
      ensures Kept(old(View())) ==> ok && Kept(View())
    {
      hide Interrupts.Execute, HandleException, TryHandleInterrupt, WithBit, Follow, KeptCsr, Select, Delegated,
           VectorMode;
      if Kept(View()) {
        StepKeeps(View(), i, stip, mtip);
        ExecuteKeeps(View(), i);
      }
      var exc: Option<(bv32, bv32)> := None;
      if !stdby {
        exc := Execute(i);
      }
      KeptModes(csr);
      match exc {
        case Some((ex, tval)) => ok := Exception(ex, tval);
        case None => ok := TryInterrupt();
      }
      csr := csr.(stip := stip, mip := WithBit(csr.mip, 0x80, mtip));
      if !stdby {
        pc := pcNext;
        pcNext := Follow(pc);
      }
    }
  }

  lemma KeptModes(csr: Csr)
    ensures KeptCsr(csr) ==> VectorMode(csr.mtvec) && VectorMode(csr.stvec)
  {}
}
