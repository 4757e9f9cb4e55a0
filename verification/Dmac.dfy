/**
 The SH-2E direct memory access controller (hardware manual REJ09B0045-0200H,
 page 157 onwards) as a state machine on values: register writes, channel
 choice, transfers, abort and source reload.
*/
module Dmac {
  import opened Options
  import opened Memory

  const WORD: nat := 0x1_0000_0000
  const AUTO_REQUEST: bv32 := 31
  const RELOAD: nat := 4

  /** CHCR is kept as its word, so that its reserved bits are part of the model. */
  datatype Channel = Channel(sar: nat, dar: nat, tcr: nat, chcr: bv32)

  predicate De(v: bv32) { v & 0x1 != 0 }
  predicate Te(v: bv32) { v & 0x2 != 0 }
  predicate Ie(v: bv32) { v & 0x4 != 0 }
  predicate Tm(v: bv32) { v & 0x8 != 0 }
  function Ts(v: bv32): bv32 { (v >> 4) & 3 }
  function Dm(v: bv32): bv32 { (v >> 8) & 3 }
  function Sm(v: bv32): bv32 { (v >> 12) & 3 }
  function Rs(v: bv32): bv32 { (v >> 16) & 0x1F }
  predicate Ro(v: bv32) { v & 0x0100_0000 != 0 }
  predicate Di(v: bv32) { v & 0x1000_0000 != 0 }

  predicate Dme(v: bv16) { v & 1 != 0 }
  predicate Nmif(v: bv16) { v & 2 != 0 }
  predicate Ae(v: bv16) { v & 4 != 0 }

  datatype Phase = Initial | Waiting | Transferring

  datatype RequestType = Receive | Transmit | DoNotCare

  datatype Request = Request(pending: bool, registered: bool, kind: RequestType, addr: nat)

  /** What the controller signals to its processor. */
  datatype Signal = AddressError | TransferEnd(channel: nat)

  datatype State = State(
    dmaor: bv16,
    channels: seq<Channel>,
    phase: Phase,
    picked: int,
    reload: nat,
    initialSar2: nat,
    requests: seq<Request>,
    transfers: nat,
    signals: seq<Signal>)

  /** A step ends in a state, or trips an assertion of the simulator. */
  datatype Outcome = Ok(state: State, mem: Mem) | Die

  predicate Shaped(s: State) { |s.channels| == 4 && |s.requests| == 32 }

  function Set(s: State, c: nat, ch: Channel): State
    requires c < |s.channels|
  {
    s.(channels := s.channels[c := ch])
  }

  // ---------- registers ----------

  predicate NoRequest(rs: bv32) { rs == 0 || rs == 14 || rs == 16 || rs == 29 || rs == 30 }

  /** The value CHCR takes from the written one; `di` and `ro` are 0 on the channels where those bits are wired to 0. */
  function Taken(current: bv32, val: bv32, di: bv32, ro: bv32, clearEnd: bool, enable: bool): bv32 {
    if clearEnd then
      if enable then (current & !0x111F_333F) | (val & 0x001F_333D) | (di & 0x1000_0000) | (ro & 0x0100_0000)
      else (current & !0x111F_333E) | (val & 0x001F_333C) | (di & 0x1000_0000) | (ro & 0x0100_0000)
    else
      if enable then (current & !0x111F_333D) | (val & 0x001F_333D) | (di & 0x1000_0000) | (ro & 0x0100_0000)
      else (current & !0x111F_333C) | (val & 0x001F_333C) | (di & 0x1000_0000) | (ro & 0x0100_0000)
  }

  /** TE can only be cleared, and DE can only be set together with a request source. */
  function ChcrValue(current: bv32, c: nat, val: bv32): bv32 {
    Taken(current, val, if c == 3 then val else 0, if c == 2 then val else 0, !Te(val), !De(val) || !NoRequest(Rs(val)))
  }

  /** `sh2e_dmac_chcr_write` */
  function WriteChcr(s: State, c: nat, val: bv32): State
    requires c < |s.channels|
  {
    var v := ChcrValue(s.channels[c].chcr, c, val);
    var s' := Set(s, c, s.channels[c].(chcr := v));
    if !De(v) && c == 2 then s'.(reload := RELOAD) else s'
  }

  const BLANK := Channel(0, 0, 0, 0)

  /** `sh2e_dmac_reset`; requests and statistics survive. */
  function Reset(s: State): State {
    s.(dmaor := 0, channels := [BLANK, BLANK, BLANK, BLANK], phase := Initial, picked := -1, reload := RELOAD)
  }

  function Nmi(s: State): State { s.(dmaor := s.dmaor | 2) }

  /** A peripheral asks; only requests that were configured are noted. */
  function Ask(s: State, i: nat): State {
    if i < 32 && i < |s.requests| && i != 31 && !NoRequest(i as bv32) && s.requests[i].registered then
      s.(requests := s.requests[i := s.requests[i].(pending := true)])
    else s
  }

  function MergeNat(current: nat, value: bv16, upper: bool): nat {
    if upper then current % 0x1_0000 + (value as nat) * 0x1_0000 else current / 0x1_0000 * 0x1_0000 + value as nat
  }

  function MergeWord(current: bv32, value: bv16, upper: bool): bv32 {
    if upper then (current & 0xFFFF) | ((value as bv32) << 16) else (current & 0xFFFF_0000) | value as bv32
  }

  /** `dsh2edmac_write16`, by offset from the first register. */
  function Write16(s: State, offset: nat, val: bv16): State
    requires |s.channels| == 4
  {
    if offset == 0 then s.(dmaor := val & 7)
    else if offset < 0x10 || offset >= 0x50 then s
    else
      var c, reg := (offset - 0x10) / 16, (offset - 0x10) % 16;
      var upper := reg % 4 == 0;
      var ch := s.channels[c];
      if reg == 0 || reg == 2 then Set(s, c, ch.(sar := MergeNat(ch.sar, val, upper)))
      else if reg == 4 || reg == 6 then Set(s, c, ch.(dar := MergeNat(ch.dar, val, upper)))
      else if reg == 8 || reg == 10 then Set(s, c, ch.(tcr := MergeNat(ch.tcr, val, upper) % 0x100_0000))
      else if reg == 12 || reg == 14 then WriteChcr(s, c, MergeWord(ch.chcr, val, upper))
      else s
  }

  function Unsigned(v: bv32): (n: nat)
    ensures n < WORD
  {
    v as nat
  }

  /** `dsh2edmac_write32` */
  function Write32(s: State, offset: nat, val: bv32): State
    requires |s.channels| == 4
  {
    if offset < 0x10 || offset >= 0x50 then s
    else
      var c, reg := (offset - 0x10) / 16, (offset - 0x10) % 16;
      var ch := s.channels[c];
      if reg == 0 then Set(s, c, ch.(sar := Unsigned(val)))
      else if reg == 4 then Set(s, c, ch.(dar := Unsigned(val)))
      else if reg == 8 then Set(s, c, ch.(tcr := Unsigned(val) % 0x100_0000))
      else if reg == 12 then WriteChcr(s, c, val)
      else s
  }

  // ---------- transfers ----------

  function Size(v: bv32): (n: nat)
    ensures 1 <= n <= 8
  {
    if Ts(v) == 0 then 1 else if Ts(v) == 1 then 2 else if Ts(v) == 2 then 4 else 8
  }

  function Flagged(v: bv16): bv16 { v | 4 }

  /** Move one unit; a misaligned source raises the address error instead. */
  function Move(s: State, m: Mem, source: nat, dest: nat, size: nat): (State, Mem) {
    if (size == 2 && source % 2 != 0) || (size == 4 && source % 4 != 0) then
      (s.(dmaor := Flagged(s.dmaor), signals := s.signals + [AddressError]), m)
    else
      (s, WriteBytes(m, dest, ReadBytes(m, source, size), true))
  }

  function Advance(a: nat, mode: bv32, step: nat): nat
    requires a < WORD && step <= 8
  {
    if mode == 1 then (a + step) % WORD else if mode == 2 then (a + WORD - step) % WORD else a
  }

  /** Register values fit their width. */
  predicate Wide(ch: Channel) { ch.sar < WORD && ch.dar < WORD && ch.tcr < WORD }

  /** `regs_update_after_transfer` and the count. */
  function Advanced(ch: Channel): Channel
    requires Wide(ch)
  {
    ch.(sar := Advance(ch.sar, Sm(ch.chcr), if Di(ch.chcr) then 4 else Size(ch.chcr)),
        dar := Advance(ch.dar, Dm(ch.chcr), Size(ch.chcr)),
        tcr := (ch.tcr + WORD - 1) % WORD)
  }

  /** The address the unit is read from: in the indirect mode of channel 3 it is itself read from memory. */
  function SourceOf(ch: Channel, m: Mem): nat {
    if Di(ch.chcr) then Memory.Read32(m, ch.sar) as nat else ch.sar
  }

  /** `perform_transfer` */
  function PerformTransfer(s: State, m: Mem, c: nat): Outcome
    requires c < |s.channels| && Wide(s.channels[c])
  {
    var ch := s.channels[c];
    if Ts(ch.chcr) == 3 then Die
    else
      var (s1, m1) := Move(s, m, SourceOf(ch, m), ch.dar, Size(ch.chcr));
      Ok(Set(s1, c, Advanced(ch)), m1)
  }

  predicate MustAbort(s: State)
    requires 0 <= s.picked < |s.channels|
  {
    Nmif(s.dmaor) || Ae(s.dmaor) || !Dme(s.dmaor) || !De(s.channels[s.picked].chcr)
  }

  function Abort(s: State): State {
    s.(phase := Initial, reload := if s.picked == 2 then RELOAD else s.reload)
  }

  /** The source reload of channel 2, every fourth unit. */
  function Reloaded(s: State): State
    requires s.picked == 2 ==> |s.channels| == 4
  {
    if s.picked != 2 then s
    else if s.reload == 1 then Set(s, 2, s.channels[2].(sar := s.initialSar2)).(reload := RELOAD)
    else s.(reload := if s.reload == 0 then 0xFFFF_FFFF else s.reload - 1)
  }

  function Ended(v: bv32): bv32 { v | 2 }

  /** What follows a transfer: abort, end, or the next request. */
  function Concluded(s: State): State
    requires 0 <= s.picked < |s.channels|
  {
    if MustAbort(s) then Abort(s)
    else
      var c := s.picked;
      var ch := s.channels[c];
      var s1 := s.(transfers := s.transfers + 1);
      if ch.tcr == 0 then
        Set(s1, c, ch.(chcr := Ended(ch.chcr))).(
          phase := Initial,
          reload := if c == 2 then RELOAD else s.reload,
          signals := if Ie(ch.chcr) then s.signals + [TransferEnd(c)] else s.signals)
      else s1.(phase := if Tm(ch.chcr) then Transferring else Waiting)
  }

  /** `transfer_and_update_regs` */
  function TransferOne(s: State, m: Mem): Outcome
    requires Shaped(s) && 0 <= s.picked < 4 && Wide(s.channels[s.picked])
  {
    match PerformTransfer(s, m, s.picked)
    case Die => Die
    case Ok(s1, m1) => Ok(Concluded(Reloaded(s1)), m1)
  }

  ghost predicate Live(s: State) {
    && Shaped(s)
    && (forall c :: 0 <= c < 4 ==> Wide(s.channels[c]))
    && s.initialSar2 < WORD
  }

  /** `step_transferring`; a burst moves a second unit in the same step. */
  function StepTransferring(s: State, m: Mem): Outcome
    requires Live(s) && 0 <= s.picked < 4
  {
    if MustAbort(s) then Ok(Abort(s), m)
    else
      match TransferOne(s, m)
      case Die => Die
      case Ok(s1, m1) =>
        TransferLive(s, m);
        if s1.phase == Transferring then
          match TransferOne(s1, m1)
          case Die => Die
          case Ok(s2, m2) => Ok(s2.(phase := Waiting), m2)
        else Ok(s1, m1)
  }

  lemma AdvanceFits(ch: Channel)
    requires Wide(ch)
    ensures Wide(Advanced(ch)) && Advanced(ch).chcr == ch.chcr && Advanced(ch).tcr == (ch.tcr + WORD - 1) % WORD
  {
    hide Sm, Dm, Di, Size;
  }

  /** What a unit leaves alone: everything but its channel, the flags and the signals. */
  lemma PerformShape(s: State, m: Mem, c: nat)
    requires c < |s.channels| && Wide(s.channels[c])
    ensures PerformTransfer(s, m, c).Die? <==> Ts(s.channels[c].chcr) == 3
    ensures PerformTransfer(s, m, c).Ok? ==>
              var r := PerformTransfer(s, m, c).state;
              r == s.(channels := s.channels[c := Advanced(s.channels[c])], dmaor := r.dmaor, signals := r.signals)
  {
    hide Advanced, Ts, Size, SourceOf, WriteBytes;
  }

  lemma ReloadedShape(s: State)
    requires Live(s) && 0 <= s.picked < 4
    ensures var r := Reloaded(s);
            && Live(r) && r.picked == s.picked && r.phase == s.phase
            && r.channels[s.picked].tcr == s.channels[s.picked].tcr
            && forall c :: 0 <= c < 4 ==> r.channels[c].chcr == s.channels[c].chcr
  {
    hide Advanced;
  }

  lemma ConcludedShape(s: State)
    requires Live(s) && 0 <= s.picked < 4
    ensures var r := Concluded(s);
            && Live(r) && r.picked == s.picked && r.channels[s.picked].tcr == s.channels[s.picked].tcr
            && Ts(r.channels[s.picked].chcr) == Ts(s.channels[s.picked].chcr)
  {
    hide De, Ie, Tm, Nmif, Ae, Dme, Ts, Ended;
    TeKeepsSize(s.channels[s.picked].chcr);
  }

  lemma TransferLive(s: State, m: Mem)
    requires Live(s) && 0 <= s.picked < 4
    ensures TransferOne(s, m).Die? <==> Ts(s.channels[s.picked].chcr) == 3
    ensures TransferOne(s, m).Ok? ==>
              var s1 := TransferOne(s, m).state;
              && Live(s1) && s1.picked == s.picked && Ts(s1.channels[s.picked].chcr) == Ts(s.channels[s.picked].chcr)
              && s1.channels[s.picked].tcr == (s.channels[s.picked].tcr + WORD - 1) % WORD
  {
    hide PerformTransfer, Reloaded, Concluded, Ts, Advanced, Wide;
    var c := s.picked;
    PerformShape(s, m, c);
    match PerformTransfer(s, m, c)
    case Die =>
    case Ok(r, _) =>
      AdvanceFits(s.channels[c]);
      assert Live(r);
      ReloadedShape(r);
      ConcludedShape(Reloaded(r));
  }

  lemma TeKeepsSize(v: bv32)
    ensures Ts(Ended(v)) == Ts(v)
  {}

  /** `step_waiting` */
  function StepWaiting(s: State, m: Mem): Outcome
    requires Live(s) && 0 <= s.picked < 4
  {
    var ch := s.channels[s.picked];
    var rs := Rs(ch.chcr);
    if rs == AUTO_REQUEST then StepTransferring(s.(phase := Transferring), m)
    else if NoRequest(rs) then Die
    else
      RsFits(ch.chcr);
      var r := s.requests[rs as nat];
      if !r.registered then Ok(s.(phase := Initial), m)
      else if r.pending then
        var s1 := s.(requests := s.requests[rs as nat := r.(pending := false)]);
        if r.kind != DoNotCare && (if r.kind == Receive then ch.sar else ch.dar) != r.addr then
          Ok(s1.(phase := Initial), m)
        else StepTransferring(s1.(phase := Transferring), m)
      else Ok(s, m)
  }

  lemma RsFits(v: bv32)
    ensures Rs(v) as nat < 32
  {
    assert Rs(v) <= 31;
  }

  /** The lowest channel that is enabled and not finished, or -1. */
  function Choose(channels: seq<Channel>, from: nat): (c: int)
    requires from <= |channels|
    ensures c == -1 || from <= c < |channels|
    ensures c >= 0 ==> De(channels[c].chcr) && !Te(channels[c].chcr)
    ensures forall i :: from <= i < (if c < 0 then |channels| else c) ==> !De(channels[i].chcr) || Te(channels[i].chcr)
    decreases |channels| - from
  {
    if from == |channels| then -1
    else if De(channels[from].chcr) && !Te(channels[from].chcr) then from
    else Choose(channels, from + 1)
  }

  /** A channel is picked; channel 2 remembers the source it starts from. */
  function Selected(s: State, c: int): State
    requires Live(s)
  {
    s.(picked := c, initialSar2 := if c == 2 then s.channels[2].sar else s.initialSar2, phase := Waiting)
  }

  /** `step_initial` */
  function StepInitial(s: State, m: Mem): Outcome
    requires Live(s)
  {
    if Dme(s.dmaor) && !Nmif(s.dmaor) && !Ae(s.dmaor) then
      var c := Choose(s.channels, 0);
      if c < 0 then Ok(s.(picked := -1), m)
      else
        StepWaiting(Selected(s, c), m)
    else Ok(s.(picked := -1), m)
  }

  /** Outside the initial phase a channel is picked. */
  predicate Picked(s: State) { s.phase != Initial ==> 0 <= s.picked < 4 }

  /** One cycle. */
  function Cycle(s: State, m: Mem): Outcome
    requires Live(s) && Picked(s)
  {
    match s.phase
    case Initial => StepInitial(s, m)
    case Waiting => StepWaiting(s, m)
    case Transferring => StepTransferring(s, m)
  }

  // ---------- what every run keeps ----------

  const CHCR_RESERVED: bv32 := 0xEEE0_CCC0

  predicate TidyChcr(v: bv32, c: nat) {
    && v & CHCR_RESERVED == 0
    && (c != 3 ==> !Di(v))
    && (c != 2 ==> !Ro(v))
  }

  /** The states the controller can reach. */
  ghost predicate Inv(s: State) {
    && Live(s) && Picked(s)
    && 1 <= s.reload <= RELOAD
    && s.dmaor & 0xFFF8 == 0
    && (forall c :: 0 <= c < 4 ==> TidyChcr(s.channels[c].chcr, c))
  }

  /** Registering a request source, as the simulator's configuration does. */
  function AddSource(s: State, i: nat, kind: RequestType, addr: nat): State {
    if i < 32 && i < |s.requests| && i != 31 && !NoRequest(i as bv32) then
      s.(requests := s.requests[i := Request(false, true, kind, addr)])
    else s
  }

  const NO_REQUESTS: seq<Request> := seq(32, i => Request(false, false, Receive, 0))

  const POWER_ON: State := State(0, [BLANK, BLANK, BLANK, BLANK], Initial, -1, RELOAD, 0, NO_REQUESTS, 0, [])

  /** Everything that can happen to the controller; a cycle sees whatever memory the machine then has. */
  datatype Event =
    | Word(offset: nat, val16: bv16)
    | Long(offset: nat, val32: bv32)
    | PowerOn
    | NonMaskable
    | Asked(index: nat)
    | Configured(index: nat, kind: RequestType, addr: nat)
    | Clock(mem: Mem)

  function Step(s: State, e: Event): Option<State>
    requires Live(s) && Picked(s)
  {
    match e
    case Word(offset, v) => Some(Write16(s, offset, v))
    case Long(offset, v) => Some(Write32(s, offset, v))
    case PowerOn => Some(Reset(s))
    case NonMaskable => Some(Nmi(s))
    case Asked(i) => Some(Ask(s, i))
    case Configured(i, kind, addr) => Some(AddSource(s, i, kind, addr))
    case Clock(m) => match Cycle(s, m) case Die => None case Ok(s', _) => Some(s')
  }

  lemma ChcrStaysTidy(current: bv32, c: nat, val: bv32)
    requires TidyChcr(current, c)
    ensures TidyChcr(ChcrValue(current, c, val), c)
    ensures TidyChcr(Ended(current), c)
  {}

  lemma WriteChcrKeeps(s: State, c: nat, val: bv32)
    requires Inv(s) && c < 4
    ensures Inv(WriteChcr(s, c, val))
  {
    hide TidyChcr, ChcrValue, De;
    ChcrStaysTidy(s.channels[c].chcr, c, val);
  }

  lemma MergeFits(current: nat, value: bv16, upper: bool)
    requires current < WORD
    ensures MergeNat(current, value, upper) < WORD
  {}

  lemma Write16Keeps(s: State, offset: nat, val: bv16)
    requires Inv(s)
    ensures Inv(Write16(s, offset, val))
  {
    hide TidyChcr, MergeNat, MergeWord, WriteChcr;
    if 0x10 <= offset < 0x50 {
      var c, reg := (offset - 0x10) / 16, (offset - 0x10) % 16;
      var ch := s.channels[c];
      MergeFits(ch.sar, val, reg % 4 == 0);
      MergeFits(ch.dar, val, reg % 4 == 0);
      WriteChcrKeeps(s, c, MergeWord(ch.chcr, val, reg % 4 == 0));
    }
  }

  lemma Write32Keeps(s: State, offset: nat, val: bv32)
    requires Inv(s)
    ensures Inv(Write32(s, offset, val))
  {
    hide TidyChcr, WriteChcr, Unsigned;
    if 0x10 <= offset < 0x50 {
      WriteChcrKeeps(s, (offset - 0x10) / 16, val);
    }
  }

  lemma MoveKeeps(s: State, m: Mem, source: nat, dest: nat, size: nat)
    requires Inv(s)
    ensures var s' := Move(s, m, source, dest, size).0; Inv(s') && s'.(dmaor := s.dmaor, signals := s.signals) == s
  {
    hide TidyChcr;
  }

  lemma ConcludedKeeps(s: State)
    requires Inv(s) && 0 <= s.picked < 4
    ensures Inv(Concluded(s)) && Concluded(s).picked == s.picked
  {
    hide TidyChcr, De, Ie, Tm, Ended;
    ChcrStaysTidy(s.channels[s.picked].chcr, s.picked, 0);
  }

  lemma TransferKeeps(s: State, m: Mem)
    requires Inv(s) && 0 <= s.picked < 4
    ensures TransferOne(s, m).Ok? ==> Inv(TransferOne(s, m).state) && TransferOne(s, m).state.picked == s.picked
  {
    hide TidyChcr, Move, Advanced, Concluded, Ts, Size, SourceOf;
    var c := s.picked;
    var ch := s.channels[c];
    AdvanceFits(ch);
    MoveKeeps(s, m, SourceOf(ch, m), ch.dar, Size(ch.chcr));
    var s1 := Set(Move(s, m, SourceOf(ch, m), ch.dar, Size(ch.chcr)).0, c, Advanced(ch));
    assert Inv(s1) && s1.picked == c;
    assert Inv(Reloaded(s1)) && Reloaded(s1).picked == c;
    ConcludedKeeps(Reloaded(s1));
  }

  lemma TransferringKeeps(s: State, m: Mem)
    requires Inv(s) && 0 <= s.picked < 4
    ensures StepTransferring(s, m).Ok? ==> Inv(StepTransferring(s, m).state)
  {
    hide TidyChcr, TransferOne, De, Nmif, Ae, Dme;
    TransferKeeps(s, m);
    match TransferOne(s, m)
    case Ok(s1, m1) => TransferKeeps(s1, m1);
    case Die =>
  }

  lemma WaitingKeeps(s: State, m: Mem)
    requires Inv(s) && 0 <= s.picked < 4
    ensures StepWaiting(s, m).Ok? ==> Inv(StepWaiting(s, m).state)
  {
    hide TidyChcr, StepTransferring, Rs, NoRequest;
    var ch := s.channels[s.picked];
    var rs := Rs(ch.chcr);
    TransferringKeeps(s.(phase := Transferring), m);
    RsFits(ch.chcr);
    var s1 := s.(requests := s.requests[rs as nat := s.requests[rs as nat].(pending := false)]);
    assert Inv(s1);
    TransferringKeeps(s1.(phase := Transferring), m);
  }

  lemma CycleKeeps(s: State, m: Mem)
    requires Inv(s)
    ensures Cycle(s, m).Ok? ==> Inv(Cycle(s, m).state)
  {
    hide TidyChcr, StepTransferring, StepWaiting, Nmif, Ae, Dme;
    match s.phase
    case Initial =>
      var c := Choose(s.channels, 0);
      if c >= 0 {
        WaitingKeeps(Selected(s, c), m);
      }
    case Waiting => WaitingKeeps(s, m);
    case Transferring => TransferringKeeps(s, m);
  }

  /** Between cycles no transfer is under way. */
  ghost predicate Resting(s: State) { Inv(s) && s.phase != Transferring }

  lemma CycleRests(s: State, m: Mem)
    requires Resting(s)
    ensures Cycle(s, m).Ok? ==> Resting(Cycle(s, m).state)
  {
    hide Inv, TidyChcr, TransferOne, De, Nmif, Ae, Dme, Rs, NoRequest;
    CycleKeeps(s, m);
    InvLive(s);
  }

  lemma InvLive(s: State)
    requires Inv(s)
    ensures Live(s) && Picked(s) && 1 <= s.reload <= RELOAD
  {}

  /** Whatever the software, the peripherals and memory do, one step keeps the invariant. */
  lemma StepKeeps(s: State, e: Event)
    requires Resting(s)
    ensures Step(s, e).Some? ==> Resting(Step(s, e).value)
  {
    hide TidyChcr, Cycle, Write16, Write32;
    match e
    case Word(offset, v) => Write16Keeps(s, offset, v); WritesKeepPhase(s, offset, v, 0);
    case Long(offset, v) => Write32Keeps(s, offset, v); WritesKeepPhase(s, offset, 0, v);
    case PowerOn => BlankIsTidy();
    case Clock(m) => CycleRests(s, m);
    case _ =>
  }

  /** Register writes never move the state machine itself. */
  lemma WritesKeepPhase(s: State, offset: nat, w: bv16, l: bv32)
    requires |s.channels| == 4
    ensures Write16(s, offset, w).phase == s.phase && Write16(s, offset, w).picked == s.picked
    ensures Write32(s, offset, l).phase == s.phase && Write32(s, offset, l).picked == s.picked
  {
    hide ChcrValue, De, MergeNat, MergeWord, Unsigned;
  }

  lemma BlankIsTidy()
    ensures forall c: nat {:trigger TidyChcr(0, c)} :: TidyChcr(0, c)
  {}

  /** A run of events; it stops where an assertion trips. */
  ghost function Run(s: State, events: seq<Event>): (r: Option<State>)
    requires Resting(s)
    ensures r.Some? ==> Resting(r.value)
    decreases |events|
  {
    if events == [] then Some(s)
    else
      StepKeeps(s, events[0]);
      match Step(s, events[0])
      case None => None
      case Some(s1) => Run(s1, events[1..])
  }

  /** Every state the controller reaches from power-on satisfies the invariant. */
  lemma ReachableInvariant(events: seq<Event>)
    ensures Resting(POWER_ON)
    ensures Run(POWER_ON, events).Some? ==> Resting(Run(POWER_ON, events).value)
  {
    BlankIsTidy();
  }

  // ---------- when an assertion trips ----------

  /** The channel a cycle serves, or -1. */
  function Served(s: State): int {
    if s.phase != Initial then s.picked
    else if Dme(s.dmaor) && !Nmif(s.dmaor) && !Ae(s.dmaor) then Choose(s.channels, 0)
    else -1
  }

  /** Its request source can be waited for, and its unit can be moved. */
  predicate Usable(v: bv32) { !NoRequest(Rs(v)) && Ts(v) != 3 }

  /** Is the request of this channel up, from the right address? */
  predicate Granted(s: State, ch: Channel)
    requires |s.requests| == 32
  {
    RsFits(ch.chcr);
    var r := s.requests[Rs(ch.chcr) as nat];
    || Rs(ch.chcr) == AUTO_REQUEST
    || (r.registered && r.pending &&
        (r.kind == DoNotCare || (if r.kind == Receive then ch.sar else ch.dar) == r.addr))
  }

  predicate Halted(s: State, v: bv32) { Nmif(s.dmaor) || Ae(s.dmaor) || !Dme(s.dmaor) || !De(v) }

  lemma TransferringDiesIff(s: State, m: Mem)
    requires Live(s) && 0 <= s.picked < 4
    ensures StepTransferring(s, m).Die? <==>
            !Halted(s, s.channels[s.picked].chcr) && Ts(s.channels[s.picked].chcr) == 3
  {
    hide TransferOne, Ts, De, Nmif, Ae, Dme;
    TransferLive(s, m);
    match TransferOne(s, m)
    case Ok(s1, m1) => TransferLive(s1, m1);
    case Die =>
  }

  lemma WaitingDiesIff(s: State, m: Mem)
    requires Live(s) && 0 <= s.picked < 4
    ensures var ch := s.channels[s.picked];
            StepWaiting(s, m).Die? <==>
            NoRequest(Rs(ch.chcr)) || (Granted(s, ch) && !Halted(s, ch.chcr) && Ts(ch.chcr) == 3)
  {
    hide StepTransferring, Rs, Ts, De, Nmif, Ae, Dme;
    var ch := s.channels[s.picked];
    RsFits(ch.chcr);
    TransferringDiesIff(s.(phase := Transferring), m);
    var i := Rs(ch.chcr) as nat;
    TransferringDiesIff(s.(phase := Transferring, requests := s.requests[i := s.requests[i].(pending := false)]), m);
    NoRequestIsNotAuto();
  }

  lemma NoRequestIsNotAuto()
    ensures !NoRequest(AUTO_REQUEST)
  {}

  /** The channel served has no request source, or a request to serve and the reserved size. */
  ghost predicate Fatal(s: State)
    requires Resting(s)
  {
    var c := Served(s);
    c >= 0 && var ch := s.channels[c];
    NoRequest(Rs(ch.chcr)) || (Granted(s, ch) && !Halted(s, ch.chcr) && Ts(ch.chcr) == 3)
  }

  /**
   A cycle trips an assertion exactly when the channel it serves names no
   request source, even if that channel has just been disabled, or has a
   request to serve and the reserved transfer size.
  */
  lemma CycleDiesIff(s: State, m: Mem)
    requires Resting(s)
    ensures Cycle(s, m).Die? <==> Fatal(s)
  {
    hide TidyChcr, StepWaiting, Rs, Ts, De, Nmif, Ae, Dme, NoRequest;
    var c := Served(s);
    if s.phase == Initial {
      if c >= 0 {
        WaitingDiesIff(Selected(s, c), m);
      }
    } else {
      WaitingDiesIff(s, m);
    }
  }

  /** Nothing armed is unusable. */
  ghost predicate Sane(s: State)
    requires |s.channels| == 4
  {
    && (forall c :: 0 <= c < 4 && De(s.channels[c].chcr) ==> Usable(s.channels[c].chcr))
    && (s.phase != Initial && 0 <= s.picked < 4 ==> Usable(s.channels[s.picked].chcr))
  }

  /** The value a write puts into a channel's control register, if it is such a write. */
  function ChcrWritten(s: State, e: Event): Option<(nat, bv32)>
    requires |s.channels| == 4
  {
    match e
    case Word(offset, v) =>
      if 0x10 <= offset < 0x50 && ((offset - 0x10) % 16 == 12 || (offset - 0x10) % 16 == 14) then
        var c := (offset - 0x10) / 16;
        Some((c, MergeWord(s.channels[c].chcr, v, (offset - 0x10) % 4 == 0)))
      else None
    case Long(offset, v) =>
      if 0x10 <= offset < 0x50 && (offset - 0x10) % 16 == 12 then Some(((offset - 0x10) / 16, v)) else None
    case _ => None
  }

  /**
   Software that neither enables a channel without a source nor takes the
   source away from a channel that is enabled or being served.
  */
  predicate Disciplined(s: State, c: nat, val: bv32)
    requires |s.channels| == 4 && c < 4
  {
    (s.phase != Initial && s.picked == c) || (De(val) && (De(s.channels[c].chcr) || !NoRequest(Rs(val)))) ==>
      Usable(val)
  }

  lemma ChcrWriteFields(current: bv32, c: nat, val: bv32)
    ensures Usable(ChcrValue(current, c, val)) == Usable(val)
    ensures De(ChcrValue(current, c, val)) == (De(val) && (De(current) || !NoRequest(Rs(val))))
  {}

  /** A write to CHCR keeps the controller sane exactly when it is disciplined. */
  lemma DisciplineIff(s: State, c: nat, val: bv32)
    requires Resting(s) && Sane(s) && c < 4
    ensures Sane(WriteChcr(s, c, val)) <==> Disciplined(s, c, val)
  {
    hide TidyChcr, ChcrValue, De, Usable, Rs, NoRequest;
    ChcrWriteFields(s.channels[c].chcr, c, val);
    var s' := WriteChcr(s, c, val);
    assert s'.channels[c].chcr == ChcrValue(s.channels[c].chcr, c, val);
    assert forall i :: 0 <= i < 4 && i != c ==> s'.channels[i] == s.channels[i];
  }

  /** Same enabled channels, sources and sizes. */
  ghost predicate SameControl(s: State, t: State) {
    && |s.channels| == 4 == |t.channels|
    && (forall c :: 0 <= c < 4 ==> De(t.channels[c].chcr) == De(s.channels[c].chcr))
    && (forall c :: 0 <= c < 4 ==> Usable(t.channels[c].chcr) == Usable(s.channels[c].chcr))
  }

  lemma EndedKeepsControl(v: bv32)
    ensures De(Ended(v)) == De(v) && Usable(Ended(v)) == Usable(v)
  {}

  lemma TransferKeepsControl(s: State, m: Mem)
    requires Live(s) && 0 <= s.picked < 4
    ensures TransferOne(s, m).Ok? ==> SameControl(s, TransferOne(s, m).state)
  {
    hide PerformTransfer, Reloaded, Concluded, Advanced, Wide, De, Usable;
    PerformShape(s, m, s.picked);
    match PerformTransfer(s, m, s.picked)
    case Die =>
    case Ok(r, _) =>
      AdvanceFits(s.channels[s.picked]);
      assert Live(r);
      ReloadedShape(r);
      ConcludedKeepsControl(Reloaded(r));
  }

  lemma ConcludedKeepsControl(s: State)
    requires Live(s) && 0 <= s.picked < 4
    ensures SameControl(s, Concluded(s))
  {
    hide De, Usable, Ie, Tm, Nmif, Ae, Dme, Ended;
    EndedKeepsControl(s.channels[s.picked].chcr);
  }

  lemma TransferringKeepsControl(s: State, m: Mem)
    requires Live(s) && 0 <= s.picked < 4
    ensures StepTransferring(s, m).Ok? ==>
              SameControl(s, StepTransferring(s, m).state) && StepTransferring(s, m).state.picked == s.picked
  {
    hide TransferOne, De, Usable, Nmif, Ae, Dme, Ts;
    TransferLive(s, m);
    TransferKeepsControl(s, m);
    match TransferOne(s, m)
    case Ok(s1, m1) => TransferLive(s1, m1); TransferKeepsControl(s1, m1);
    case Die =>
  }

  lemma WaitingKeepsControl(s: State, m: Mem)
    requires Live(s) && 0 <= s.picked < 4
    ensures StepWaiting(s, m).Ok? ==>
              SameControl(s, StepWaiting(s, m).state) && StepWaiting(s, m).state.picked == s.picked
  {
    hide StepTransferring, Rs, NoRequest, De, Usable;
    var ch := s.channels[s.picked];
    RsFits(ch.chcr);
    TransferringKeepsControl(s.(phase := Transferring), m);
    var i := Rs(ch.chcr) as nat;
    TransferringKeepsControl(
      s.(phase := Transferring, requests := s.requests[i := s.requests[i].(pending := false)]), m);
  }

  lemma CycleKeepsSane(s: State, m: Mem)
    requires Resting(s) && Sane(s)
    ensures Cycle(s, m).Ok? ==> Live(Cycle(s, m).state) && Sane(Cycle(s, m).state)
  {
    hide TidyChcr, StepWaiting, De, Usable, Nmif, Ae, Dme;
    CycleKeeps(s, m);
    var c := Served(s);
    if s.phase == Initial {
      if c >= 0 {
        WaitingKeepsControl(Selected(s, c), m);
      }
    } else {
      WaitingKeepsControl(s, m);
    }
  }

  lemma SaneCycleRuns(s: State, m: Mem)
    requires Resting(s) && Sane(s)
    ensures Cycle(s, m).Ok?
  {
    hide TidyChcr, Cycle, De, Nmif, Ae, Dme, Granted, NoRequest, Rs, Ts;
    CycleDiesIff(s, m);
    var c := Served(s);
    if c >= 0 {
      assert Usable(s.channels[c].chcr);
    }
  }

  /** Every write to CHCR in the run is disciplined at the time it is made. */
  ghost predicate OrderlyRun(s: State, events: seq<Event>)
    requires Resting(s)
    decreases |events|
  {
    events != [] ==>
      && (ChcrWritten(s, events[0]).Some? ==>
            var (c, v) := ChcrWritten(s, events[0]).value; Disciplined(s, c, v))
      && (StepKeeps(s, events[0]);
          Step(s, events[0]).Some? ==> OrderlyRun(Step(s, events[0]).value, events[1..]))
  }

  lemma WordWrites(s: State, offset: nat, val: bv16)
    requires |s.channels| == 4
    ensures var s' := Write16(s, offset, val);
            match ChcrWritten(s, Word(offset, val))
            case Some((c, v)) => s' == WriteChcr(s, c, v)
            case None => SameControl(s, s') && s'.phase == s.phase && s'.picked == s.picked
  {
    hide De, Usable, MergeNat, MergeWord, WriteChcr;
  }

  lemma LongWrites(s: State, offset: nat, val: bv32)
    requires |s.channels| == 4
    ensures var s' := Write32(s, offset, val);
            match ChcrWritten(s, Long(offset, val))
            case Some((c, v)) => s' == WriteChcr(s, c, v)
            case None => SameControl(s, s') && s'.phase == s.phase && s'.picked == s.picked
  {
    hide De, Usable, Unsigned, WriteChcr;
  }

  lemma StepKeepsSane(s: State, e: Event)
    requires Resting(s) && Sane(s)
    requires ChcrWritten(s, e).Some? ==> var (c, v) := ChcrWritten(s, e).value; Disciplined(s, c, v)
    ensures Step(s, e).Some? && Resting(Step(s, e).value) && Sane(Step(s, e).value)
  {
    hide TidyChcr, De, Usable, Disciplined, Cycle, Write16, Write32, WriteChcr, MergeWord;
    StepKeeps(s, e);
    match e
    case Word(_, _) => WriteKeepsSane(s, e);
    case Long(_, _) => WriteKeepsSane(s, e);
    case Clock(m) => SaneCycleRuns(s, m); CycleKeepsSane(s, m);
    case PowerOn => BlankIsOff();
    case _ =>
  }

  lemma BlankIsOff()
    ensures !De(0)
  {}

  lemma WriteKeepsSane(s: State, e: Event)
    requires Resting(s) && Sane(s) && (e.Word? || e.Long?)
    requires ChcrWritten(s, e).Some? ==> var (c, v) := ChcrWritten(s, e).value; Disciplined(s, c, v)
    ensures Live(Step(s, e).value) && Sane(Step(s, e).value)
  {
    hide TidyChcr, De, Usable, Disciplined, Write16, Write32, WriteChcr, ChcrWritten;
    StepKeeps(s, e);
    if e.Word? { WordWrites(s, e.offset, e.val16); } else { LongWrites(s, e.offset, e.val32); }
    match ChcrWritten(s, e)
    case Some((c, v)) => WrittenInRange(s, e); DisciplineIff(s, c, v);
    case None =>
  }

  lemma WrittenInRange(s: State, e: Event)
    requires |s.channels| == 4 && ChcrWritten(s, e).Some?
    ensures ChcrWritten(s, e).value.0 < 4
  {}

  /** Under disciplined software no run ever trips an assertion. */
  lemma {:induction false} OrderlyRunNeverDies(s: State, events: seq<Event>)
    requires Resting(s) && Sane(s) && OrderlyRun(s, events)
    ensures Run(s, events).Some? && Sane(Run(s, events).value)
    decreases |events|
  {
    hide Inv, Sane, Step, ChcrWritten, Disciplined;
    InvLive(s);
    if events != [] {
      StepKeepsSane(s, events[0]);
      OrderlyRunNeverDies(Step(s, events[0]).value, events[1..]);
    }
  }

  /** Event k is a cycle, and the run gets to it in a state in which a cycle trips. */
  ghost predicate DiesAt(s: State, events: seq<Event>, k: nat)
    requires Resting(s)
  {
    && k < |events| && events[k].Clock?
    && Run(s, events[..k]).Some? && Fatal(Run(s, events[..k]).value)
  }

  lemma StepDiesIff(s: State, e: Event)
    requires Resting(s)
    ensures Step(s, e).None? <==> e.Clock? && Fatal(s)
  {
    hide Cycle, Fatal, Write16, Write32;
    if e.Clock? {
      CycleDiesIff(s, e.mem);
    }
  }

  /** One event into the run. */
  lemma DiesLater(s: State, events: seq<Event>, k: nat)
    requires Resting(s) && events != [] && Step(s, events[0]).Some? && Resting(Step(s, events[0]).value)
    ensures DiesAt(s, events, k + 1) <==> DiesAt(Step(s, events[0]).value, events[1..], k)
  {
    hide Inv, Step, Fatal;
    if k + 1 < |events| {
      assert events[..k + 1][1..] == events[1..][..k];
      assert events[..k + 1][0] == events[0];
    }
  }

  /** A run trips an assertion exactly when it gets to a cycle in a state that trips one. */
  lemma {:induction false} RunDiesIff(s: State, events: seq<Event>)
    requires Resting(s)
    ensures Run(s, events).None? <==> exists k: nat :: DiesAt(s, events, k)
    decreases |events|
  {
    hide Inv, Step, Fatal, DiesAt;
    InvLive(s);
    if events == [] {
      NothingDies(s);
    } else {
      StepDiesIff(s, events[0]);
      FirstDies(s, events);
      StepKeeps(s, events[0]);
      if Step(s, events[0]).Some? {
        var t := Step(s, events[0]).value;
        InvLive(t);
        RunDiesIff(t, events[1..]);
        forall k: nat ensures DiesAt(s, events, k + 1) <==> DiesAt(t, events[1..], k) {
          DiesLater(s, events, k);
        }
        if k: nat :| DiesAt(s, events, k) {
          assert k > 0;
          assert DiesAt(t, events[1..], k - 1);
        }
        if j: nat :| DiesAt(t, events[1..], j) {
          assert DiesAt(s, events, j + 1);
        }
      }
    }
  }

  lemma NothingDies(s: State)
    requires Resting(s)
    ensures forall k: nat :: !DiesAt(s, [], k)
  {}

  lemma FirstDies(s: State, events: seq<Event>)
    requires Resting(s) && events != []
    ensures DiesAt(s, events, 0) <==> events[0].Clock? && Fatal(s)
  {
    hide Inv, Fatal;
    assert events[..0] == [];
  }

  /** Clearing the control register of the channel being served trips an assertion in the next cycle. */
  lemma CancelTrips(s: State, m: Mem)
    requires Resting(s) && s.phase != Initial
    ensures Resting(WriteChcr(s, s.picked, 0)) && Cycle(WriteChcr(s, s.picked, 0), m).Die?
  {
    hide TidyChcr, Cycle, De, ChcrValue, Granted, Nmif, Ae, Dme;
    WriteChcrKeeps(s, s.picked, 0);
    ClearedHasNoSource(s.channels[s.picked].chcr, s.picked);
    CycleDiesIff(WriteChcr(s, s.picked, 0), m);
  }

  lemma ClearedHasNoSource(current: bv32, c: nat)
    ensures NoRequest(Rs(ChcrValue(current, c, 0)))
  {}

  /** While an NMI or an address error is flagged, or the controller is off, nothing moves. */
  lemma StoppedMovesNothing(s: State, m: Mem)
    requires Resting(s) && (Nmif(s.dmaor) || Ae(s.dmaor) || !Dme(s.dmaor)) && Cycle(s, m).Ok?
    ensures var Ok(s', m') := Cycle(s, m);
            && m' == m && s'.channels == s.channels && s'.dmaor == s.dmaor
            && s'.transfers == s.transfers && s'.signals == s.signals
  {
    hide TidyChcr, TransferOne, De, Nmif, Ae, Dme, Rs, NoRequest;
  }
}
