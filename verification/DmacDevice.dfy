/** The controller as the simulator keeps it: an object whose steps update its registers and the memory. */
module DmacDevice {
  import opened Memory
  import opened Dmac
  import DmacCopy

  /** A word with the bits of one field replaced. */
  function WithField(w: bv32, field: bv32, val: bv32): bv32 { (w & !field) | (val & field) }

  /** The fields from DI to IE, assigned one after the other. */
  function Configured(current: bv32, di: bv32, ro: bv32, val: bv32): bv32 {
    var b := WithField(WithField(current, 0x1000_0000, di), 0x0100_0000, ro);
    var d := WithField(WithField(WithField(b, 0x001F_0000, val), 0x3000, val), 0x0300, val);
    WithField(WithField(WithField(d, 0x30, val), 0x08, val), 0x04, val)
  }

  /** With TE cleared and DE written. */
  lemma ClearedAndWritten(current: bv32, di: bv32, ro: bv32, val: bv32)
    ensures WithField(WithField(Configured(current, di, ro, val), 0x02, 0), 0x01, val) ==
            Taken(current, val, di, ro, true, true)
  {}

  lemma ClearedOnly(current: bv32, di: bv32, ro: bv32, val: bv32)
    ensures WithField(Configured(current, di, ro, val), 0x02, 0) == Taken(current, val, di, ro, true, false)
  {}

  lemma WrittenOnly(current: bv32, di: bv32, ro: bv32, val: bv32)
    ensures WithField(Configured(current, di, ro, val), 0x01, val) == Taken(current, val, di, ro, false, true)
  {}

  lemma NeitherFlag(current: bv32, di: bv32, ro: bv32, val: bv32)
    ensures Configured(current, di, ro, val) == Taken(current, val, di, ro, false, false)
  {}

  class Controller {
    var dmaor: bv16
    var channels: seq<Channel>
    var phase: Phase
    var picked: int
    var reload: nat
    var initialSar2: nat
    var requests: seq<Request>
    var transfers: nat
    var signals: seq<Signal>
    var ram: Mem

    ghost function View(): State
      reads this
    {
      State(dmaor, channels, phase, picked, reload, initialSar2, requests, transfers, signals)
    }

    /** The state and memory a step must reach; a step that cannot go on leaves the object unspecified. */
    ghost predicate Reached(o: Outcome, ok: bool)
      reads this
    {
      match o
      case Die => !ok
      case Ok(s, m) => ok && View() == s && ram == m
    }

    constructor (memory: Mem)
      ensures View() == POWER_ON && ram == memory && Resting(View())
    {
      dmaor, channels, phase, picked, reload := 0, [BLANK, BLANK, BLANK, BLANK], Initial, -1, RELOAD;
      initialSar2, requests, transfers, signals, ram := 0, NO_REQUESTS, 0, [], memory;
      new;
      BlankIsTidy();
    }

    /** The assignments of `sh2e_dmac_chcr_write`, field by field. */
    static method AssignFields(current: bv32, c: nat, val: bv32) returns (r: bv32)
      ensures r == ChcrValue(current, c, val)
    {
      hide De, Te, Rs, NoRequest, WithField, Taken;
      var di, ro := if c == 3 then val else 0, if c == 2 then val else 0;
      r := WithField(current, 0x1000_0000, di);
      r := WithField(r, 0x0100_0000, ro);
      r := WithField(r, 0x001F_0000, val);
      r := WithField(r, 0x3000, val);
      r := WithField(r, 0x0300, val);
      r := WithField(r, 0x30, val);
      r := WithField(r, 0x08, val);
      r := WithField(r, 0x04, val);
      ClearedAndWritten(current, di, ro, val);
      ClearedOnly(current, di, ro, val);
      WrittenOnly(current, di, ro, val);
      NeitherFlag(current, di, ro, val);
      if !Te(val) {
        r := WithField(r, 0x02, 0);
      }
      if !De(val) || !NoRequest(Rs(val)) {
        r := WithField(r, 0x01, val);
      }
    }

    /** A write to CHCR; a disabled channel 2 starts its next transfer with a full reload counter. */
    method ControlWrite(c: nat, val: bv32)
      requires Resting(View()) && c < 4
      modifies this`channels, this`reload
      ensures View() == WriteChcr(old(View()), c, val) && Resting(View())
    {
      hide De, ChcrValue, TidyChcr;
      WriteChcrKeeps(View(), c, val);
      var v := AssignFields(channels[c].chcr, c, val);
      channels := channels[c := channels[c].(chcr := v)];
      if !De(v) && c == 2 {
        reload := RELOAD;
      }
    }

    /** `dsh2edmac_write32`, by offset from the first register. */
    method WriteLong(offset: nat, val: bv32)
      requires Resting(View())
      modifies this`channels, this`reload
      ensures View() == Dmac.Write32(old(View()), offset, val) && Resting(View())
    {
      hide TidyChcr, Unsigned, WriteChcr;
      StepKeeps(View(), Long(offset, val));
      if offset < 0x10 || offset >= 0x50 {
        return;
      }
      var c, reg := (offset - 0x10) / 16, (offset - 0x10) % 16;
      match reg
      case 0 => channels := channels[c := channels[c].(sar := Unsigned(val))];
      case 4 => channels := channels[c := channels[c].(dar := Unsigned(val))];
      case 8 => channels := channels[c := channels[c].(tcr := Unsigned(val) % 0x100_0000)];
      case 12 => ControlWrite(c, val);
      case _ =>
    }

    /** `dsh2edmac_write16`: half a register, upper half first. */
    method WriteWord(offset: nat, val: bv16)
      requires Resting(View())
      modifies this`dmaor, this`channels, this`reload
      ensures View() == Write16(old(View()), offset, val) && Resting(View())
    {
      hide TidyChcr, MergeNat, MergeWord, WriteChcr;
      StepKeeps(View(), Word(offset, val));
      if offset == 0 {
        dmaor := val & 7;
        return;
      }
      if offset < 0x10 || offset >= 0x50 {
        return;
      }
      var c, reg := (offset - 0x10) / 16, (offset - 0x10) % 16;
      var upper, ch := reg % 4 == 0, channels[c];
      if reg == 0 || reg == 2 {
        channels := channels[c := ch.(sar := MergeNat(ch.sar, val, upper))];
      } else if reg == 4 || reg == 6 {
        channels := channels[c := ch.(dar := MergeNat(ch.dar, val, upper))];
      } else if reg == 8 || reg == 10 {
        channels := channels[c := ch.(tcr := MergeNat(ch.tcr, val, upper) % 0x100_0000)];
      } else if reg == 12 || reg == 14 {
        ControlWrite(c, MergeWord(ch.chcr, val, upper));
      }
    }

    method Perform(c: nat) returns (ok: bool)
      requires c < |channels| && Wide(channels[c])
      modifies this
      ensures Reached(PerformTransfer(old(View()), old(ram), c), ok)
    {
      hide Sm, Dm, Di, Ts, Size, SourceOf, WriteBytes, ReadBytes, Advance, Flagged;
      var ch := channels[c];
      if Ts(ch.chcr) == 3 {
        return false;
      }
      var source, size := SourceOf(ch, ram), Size(ch.chcr);
      if (size == 2 && source % 2 != 0) || (size == 4 && source % 4 != 0) {
        dmaor := Flagged(dmaor);
        signals := signals + [AddressError];
      } else {
        ram := WriteBytes(ram, ch.dar, ReadBytes(ram, source, size), true);
      }
      var sar := Advance(ch.sar, Sm(ch.chcr), if Di(ch.chcr) then 4 else size);
      var dar := Advance(ch.dar, Dm(ch.chcr), size);
      channels := channels[c := Channel(sar, dar, (ch.tcr + WORD - 1) % WORD, ch.chcr)];
      ok := true;
    }

    predicate Stopped()
      requires 0 <= picked < |channels|
      reads this
    {
      Nmif(dmaor) || Ae(dmaor) || !Dme(dmaor) || !De(channels[picked].chcr)
    }

    method ReloadSource()
      requires |channels| == 4
      modifies this`channels, this`reload
      ensures View() == Reloaded(old(View())) && |channels| == 4
    {
      if picked == 2 {
        reload := if reload == 0 then 0xFFFF_FFFF else reload - 1;
        if reload == 0 {
          channels := channels[2 := channels[2].(sar := initialSar2)];
          reload := RELOAD;
        }
      }
    }

    /** How a unit is followed up. */
    method Conclude()
      requires |channels| == 4 && 0 <= picked < 4
      modifies this
      ensures View() == Concluded(old(View())) && ram == old(ram)
    {
      hide De, Dme, Nmif, Ae, Ie, Tm, Ended;
      if Stopped() {
        phase := Initial;
        if picked == 2 { reload := RELOAD; }
        return;
      }
      transfers := transfers + 1;
      var ch := channels[picked];
      if ch.tcr == 0 {
        channels := channels[picked := ch.(chcr := Ended(ch.chcr))];
        if picked == 2 { reload := RELOAD; }
        if Ie(ch.chcr) { signals := signals + [TransferEnd(picked)]; }
        phase := Initial;
      } else if Tm(ch.chcr) {
        phase := Transferring;
      } else {
        phase := Waiting;
      }
    }

    method TransferAndUpdate() returns (ok: bool)
      requires Live(View()) && 0 <= picked < 4
      modifies this
      ensures Reached(TransferOne(old(View()), old(ram)), ok)
    {
      hide PerformTransfer, Reloaded, Concluded, Ts;
      PerformShape(View(), ram, picked);
      ok := Perform(picked);
      if ok {
        ReloadSource();
        Conclude();
      }
    }

    method Transfer() returns (ok: bool)
      requires Live(View()) && 0 <= picked < 4
      modifies this
      ensures Reached(StepTransferring(old(View()), old(ram)), ok)
    {
      hide TransferOne, De, Dme, Nmif, Ae, Ts;
      if Stopped() {
        phase := Initial;
        if picked == 2 { reload := RELOAD; }
        return true;
      }
      TransferLive(View(), ram);
      ok := TransferAndUpdate();
      if ok && phase == Transferring {
        ok := TransferAndUpdate();
        phase := Waiting;
      }
    }

    method Wait() returns (ok: bool)
      requires Live(View()) && 0 <= picked < 4
      modifies this
      ensures Reached(StepWaiting(old(View()), old(ram)), ok)
    {
      hide StepTransferring, Rs, NoRequest;
      var ch := channels[picked];
      var rs := Rs(ch.chcr);
      if rs == AUTO_REQUEST {
        phase := Transferring;
        ok := Transfer();
        return;
      }
      if NoRequest(rs) {
        return false;
      }
      RsFits(ch.chcr);
      var r := requests[rs as nat];
      if !r.registered {
        phase := Initial;
        return true;
      }
      if r.pending {
        requests := requests[rs as nat := r.(pending := false)];
        if r.kind != DoNotCare && (if r.kind == Receive then ch.sar else ch.dar) != r.addr {
          phase := Initial;
          return true;
        }
        phase := Transferring;
        ok := Transfer();
        return;
      }
      ok := true;
    }

    /** The search for a channel, in order of priority. */
    method Pick() returns (c: int)
      requires |channels| == 4
      ensures c == Choose(channels, 0)
    {
      hide De, Te;
      for i := 0 to 4
        invariant Choose(channels, 0) == Choose(channels, i)
      {
        if De(channels[i].chcr) && !Te(channels[i].chcr) {
          return i;
        }
      }
      c := -1;
    }

    method Begin() returns (ok: bool)
      requires Live(View())
      modifies this
      ensures Reached(StepInitial(old(View()), old(ram)), ok)
    {
      hide StepWaiting, Dme, Nmif, Ae, De, Te;
      picked := -1;
      if Dme(dmaor) && !Nmif(dmaor) && !Ae(dmaor) {
        picked := Pick();
        if picked == -1 {
          return true;
        }
        if picked == 2 {
          initialSar2 := channels[2].sar;
        }
        phase := Waiting;
        ok := Wait();
        return;
      }
      ok := true;
    }

    /** One pass of the loop in `dsh2edmac_step`. */
    method OneCycle() returns (ok: bool)
      requires Live(View()) && Picked(View())
      modifies this
      ensures Reached(Cycle(old(View()), old(ram)), ok)
    {
      hide StepWaiting, StepInitial, StepTransferring;
      match phase
      case Initial => ok := Begin();
      case Waiting => ok := Wait();
      case Transferring => ok := Transfer();
    }

    /** `dsh2edmac_step`: the processor gave the controller this many cycles. */
    method Step(cycles: nat) returns (ok: bool)
      requires Resting(View())
      modifies this
      ensures Reached(DmacCopy.Cycles(old(View()), old(ram), cycles), ok)
      ensures ok ==> Resting(View())
    {
      hide Inv, Cycle;
      var left := cycles;
      ok := true;
      while left > 0
        invariant 0 <= left <= cycles && ok && Resting(View())
        invariant DmacCopy.Cycles(old(View()), old(ram), cycles - left) == Ok(View(), ram)
      {
        ghost var s, m := View(), ram;
        InvLive(s);
        CycleRests(s, m);
        ok := OneCycle();
        if !ok {
          StaysDead(old(View()), old(ram), cycles - left + 1, cycles);
          return;
        }
        left := left - 1;
      }
    }
  }

  lemma {:induction false} StaysDead(s: State, m: Mem, n: nat, k: nat)
    requires Resting(s) && n <= k && DmacCopy.Cycles(s, m, n).Die?
    ensures DmacCopy.Cycles(s, m, k).Die?
    decreases k
  {
    hide Inv, Cycle;
    if n < k {
      StaysDead(s, m, n, k - 1);
    }
  }
}
