/**
 Runs of the direct memory access controller from power-on that show where its
 transfers do not do what the manual promises.
*/
module DmacWitness {
  import opened Options
  import opened Memory
  import opened Dmac
  import opened DmacCopy
  import opened DmacReload

  // ---------- programming a channel ----------

  /** The controller is switched on and the registers of one channel are written. */
  function Programming(c: nat, sar: bv32, dar: bv32, tcr: bv32, chcr: bv32): seq<Event> {
    [Word(0, 1), Long(Reg(c, 0), sar), Long(Reg(c, 4), dar), Long(Reg(c, 8), tcr), Long(Reg(c, 12), chcr)]
  }

  /** The offset of a register of channel c. */
  function Reg(c: nat, r: nat): nat { 0x10 + 16 * c + r }

  /** A state with the controller switched on and channel c programmed. */
  function Begun(s: State, c: nat, ch: Channel): State
    requires c < |s.channels|
  {
    s.(dmaor := 1, channels := s.channels[c := ch])
  }

  lemma RunStep(s: State, e: Event, rest: seq<Event>)
    requires Resting(s) && Step(s, e).Some?
    ensures Resting(Step(s, e).value) && Run(s, [e] + rest) == Run(Step(s, e).value, rest)
  {
    hide Inv, Step;
    InvLive(s);
    StepKeeps(s, e);
    assert ([e] + rest)[1..] == rest;
  }

  lemma RunEnds(s: State)
    requires Resting(s)
    ensures Run(s, []) == Some(s)
  {}

  /** The registers then hold what was written to them. */
  lemma ProgrammingReaches(c: nat, sar: bv32, dar: bv32, tcr: bv32, chcr: bv32)
    requires c < 4 && Unsigned(tcr) < 0x100_0000
    ensures Resting(POWER_ON)
    ensures Run(POWER_ON, Programming(c, sar, dar, tcr, chcr)) ==
            Some(Begun(POWER_ON, c, Channel(Unsigned(sar), Unsigned(dar), Unsigned(tcr), ChcrValue(0, c, chcr))))
  {
    ReachableInvariant([]);
    hide Inv, Unsigned, ChcrValue, De, Run, Programming;
    SwitchedOn();
    var e1, e2, e3, e4 := Long(Reg(c, 0), sar), Long(Reg(c, 4), dar), Long(Reg(c, 8), tcr), Long(Reg(c, 12), chcr);
    var s0 := POWER_ON;
    InvLive(s0);
    var s1 := SwitchOn(s0, [e1, e2, e3, e4]);
    var s2 := WriteSar(s1, c, sar, [e2, e3, e4]);
    var s3 := WriteDar(s2, c, dar, [e3, e4]);
    var s4 := WriteTcr(s3, c, tcr, [e4]);
    var s5 := WriteControl(s4, c, chcr, []);
    RunEnds(s5);
    var ch := Channel(Unsigned(sar), Unsigned(dar), Unsigned(tcr), ChcrValue(0, c, chcr));
    assert s5.channels == POWER_ON.channels[c := ch];
    assert s5 == Begun(POWER_ON, c, ch);
    assert [e4] + [] == [e4] && [e3] + [e4] == [e3, e4] && [e2] + [e3, e4] == [e2, e3, e4];
    assert [e1] + [e2, e3, e4] == [e1, e2, e3, e4];
    ProgrammingIs(c, sar, dar, tcr, chcr);
  }

  lemma ProgrammingIs(c: nat, sar: bv32, dar: bv32, tcr: bv32, chcr: bv32)
    ensures Programming(c, sar, dar, tcr, chcr) ==
            [Word(0, 1)] + [Long(Reg(c, 0), sar), Long(Reg(c, 4), dar), Long(Reg(c, 8), tcr), Long(Reg(c, 12), chcr)]
  {}

  lemma SwitchedOn()
    ensures (1 as bv16) & 7 == 1
  {}

  lemma SwitchOn(s: State, rest: seq<Event>) returns (t: State)
    requires Resting(s)
    ensures t == s.(dmaor := 1) && Resting(t) && Run(s, [Word(0, 1)] + rest) == Run(t, rest)
  {
    SwitchedOn();
    hide Inv, Run;
    InvLive(s);
    RunStep(s, Word(0, 1), rest);
    t := s.(dmaor := 1);
  }

  lemma WriteSar(s: State, c: nat, v: bv32, rest: seq<Event>) returns (t: State)
    requires Resting(s) && c < 4
    ensures |s.channels| == 4 && t == s.(channels := s.channels[c := s.channels[c].(sar := Unsigned(v))])
    ensures Resting(t) && Run(s, [Long(Reg(c, 0), v)] + rest) == Run(t, rest)
  {
    hide Inv, Run, Unsigned, ChcrValue, De;
    InvLive(s);
    RunStep(s, Long(Reg(c, 0), v), rest);
    t := Step(s, Long(Reg(c, 0), v)).value;
  }

  lemma WriteDar(s: State, c: nat, v: bv32, rest: seq<Event>) returns (t: State)
    requires Resting(s) && c < 4
    ensures |s.channels| == 4 && t == s.(channels := s.channels[c := s.channels[c].(dar := Unsigned(v))])
    ensures Resting(t) && Run(s, [Long(Reg(c, 4), v)] + rest) == Run(t, rest)
  {
    hide Inv, Run, Unsigned, ChcrValue, De;
    InvLive(s);
    RunStep(s, Long(Reg(c, 4), v), rest);
    t := Step(s, Long(Reg(c, 4), v)).value;
  }

  lemma WriteTcr(s: State, c: nat, v: bv32, rest: seq<Event>) returns (t: State)
    requires Resting(s) && c < 4 && Unsigned(v) < 0x100_0000
    ensures |s.channels| == 4 && t == s.(channels := s.channels[c := s.channels[c].(tcr := Unsigned(v))])
    ensures Resting(t) && Run(s, [Long(Reg(c, 8), v)] + rest) == Run(t, rest)
  {
    hide Inv, Run, Unsigned, ChcrValue, De;
    InvLive(s);
    RunStep(s, Long(Reg(c, 8), v), rest);
    t := Step(s, Long(Reg(c, 8), v)).value;
  }

  lemma WriteControl(s: State, c: nat, v: bv32, rest: seq<Event>) returns (t: State)
    requires Resting(s) && c < 4
    ensures |s.channels| == 4 && t == WriteChcr(s, c, v)
    ensures Resting(t) && Run(s, [Long(Reg(c, 12), v)] + rest) == Run(t, rest)
  {
    hide Inv, Run, Unsigned, ChcrValue, De;
    InvLive(s);
    RunStep(s, Long(Reg(c, 12), v), rest);
    t := Step(s, Long(Reg(c, 12), v)).value;
  }

  lemma RunClock(s: State, m: Mem, rest: seq<Event>) returns (t: State)
    requires Resting(s) && Cycle(s, m).Ok?
    ensures t == Cycle(s, m).state && Resting(t) && Run(s, [Clock(m)] + rest) == Run(t, rest)
  {
    hide Inv, Run, Cycle;
    InvLive(s);
    RunStep(s, Clock(m), rest);
    t := Cycle(s, m).state;
  }

  lemma Numbers()
    ensures Unsigned(0) == 0 && Unsigned(2) == 2 && Unsigned(5) == 5 && Unsigned(6) == 6 && Unsigned(4096) == 4096
  {}

  /** Two frames of zeros, but for a one in the fifth byte. */
  const BYTES: Mem := Mem(map x: nat | 0 <= x < 8192 :: if x == 4 then 1 else 0, {}, {})

  lemma Switches()
    ensures Dme(1) && !Nmif(1) && !Ae(1) && (1 as bv16) & 0xFFF8 == 0
    ensures !De(0) && TidyChcr(0, 0) && TidyChcr(0, 1) && TidyChcr(0, 2) && TidyChcr(0, 3)
  {}

  /** A lone channel that is ready is the next one served. */
  lemma LoneIsNext(s: State, c: nat, ch: Channel)
    requires c < 4 && |s.channels| == 4 && (forall d :: 0 <= d < 4 ==> s.channels[d] == if d == c then ch else BLANK)
    requires |s.requests| == 32 && s.initialSar2 < WORD && s.dmaor == 1 && s.phase == Initial && 1 <= s.reload <= 4
    requires Ready(ch) && Wide(ch) && !Te(ch.chcr) && TidyChcr(ch.chcr, c) && Rs(ch.chcr) == AUTO_REQUEST
    ensures Next(s, c)
  {
    Switches();
    ReadyCount(ch);
    hide De, Te, TidyChcr, Dme, Nmif, Ae, Ready;
    assert s.channels[c] == ch;
    var x := Choose(s.channels, 0);
    assert x == c;
  }

  // ---------- five bytes with RO clear ----------

  const FIVE: Channel := Channel(0, 4096, 5, 0x001F_1101)

  lemma FiveBits()
    ensures De(0x001F_1101) && !Te(0x001F_1101) && !Tm(0x001F_1101) && !Di(0x001F_1101) && !Ro(0x001F_1101)
    ensures Ts(0x001F_1101) == 0 && Dm(0x001F_1101) == 1 && Sm(0x001F_1101) == 1 && Rs(0x001F_1101) == AUTO_REQUEST
    ensures TidyChcr(0x001F_1101, 2) && ChcrValue(0, 2, 0x001F_1101) == 0x001F_1101
  {}

  lemma FiveReady()
    ensures Ready(FIVE) && Wide(FIVE) && Size(FIVE.chcr) == 1
    ensures forall k: nat :: k < 5 ==> Dest(FIVE, k) == 4096 + k && Source(FIVE, 2, RELOAD, k) == k % 4
    ensures Promised(FIVE, 4) == 4
  {
    FiveBits();
    hide De, Te, Tm, Di, Ts, Dm, Sm, Rs, Ro;
  }

  lemma FiveSeparate()
    ensures Separate(BYTES, FIVE, 2, RELOAD)
  {
    FiveBits();
    FiveReady();
    hide Source, Dest, Size, Dm, Ready;
  }

  /** Power-on, five register writes, five cycles: with RO clear the fifth byte is a copy of the first. */
  lemma RoClearIgnored()
    ensures Resting(POWER_ON) && !Ro(FIVE.chcr) && Promised(FIVE, 4) == 4 && ByteAt(BYTES, 4) == 1
    ensures var r := Run(POWER_ON, Programming(2, 0, 4096, 5, 0x001F_1101));
            && r.Some? && Next(r.value, 2) && r.value.channels[2] == FIVE
            && var o := Cycles(r.value, BYTES, 5);
            o.Ok? && ByteAt(o.mem, 4100) == 0
  {
    Numbers();
    FiveBits();
    FiveReady();
    FiveSeparate();
    hide Source, Dest, Size, Cycles, Separate, RestKept, Tm, Ro, Ready, Unsigned, ChcrValue, Run, Programming, Promised,
         Te, De, Inv, Choose, TidyChcr;
    ProgrammingReaches(2, 0, 4096, 5, 0x001F_1101);
    var s := Begun(POWER_ON, 2, FIVE);
    LoneIsNext(s, 2, FIVE);
    BlockCopied(s, BYTES, 2);
    assert DestByte(FIVE, 4, 0) == 4100;
  }

  // ---------- a counter left over with RO set ----------

  const SIX: Channel := Channel(0, 4096, 6, 0x011F_1101)

  /** The same channel after one unit. */
  const LEFT: Channel := Channel(1, 4097, 5, 0x011F_1101)

  /** After one unit the channel is told to wait for a request that is not configured, and then to go on by itself. */
  const INTERRUPTED: seq<Event> := [Clock(BYTES), Long(0x3C, 0x0101_1101), Clock(BYTES), Long(0x3C, 0x011F_1101)]

  lemma SixBits()
    ensures De(0x011F_1101) && !Te(0x011F_1101) && !Tm(0x011F_1101) && !Di(0x011F_1101) && Ro(0x011F_1101)
    ensures Ts(0x011F_1101) == 0 && Dm(0x011F_1101) == 1 && Sm(0x011F_1101) == 1 && Rs(0x011F_1101) == AUTO_REQUEST
    ensures TidyChcr(0x011F_1101, 2) && ChcrValue(0, 2, 0x011F_1101) == 0x011F_1101
    ensures ChcrValue(0x011F_1101, 2, 0x0101_1101) == 0x0101_1101
    ensures ChcrValue(0x0101_1101, 2, 0x011F_1101) == 0x011F_1101
    ensures De(0x0101_1101) && Rs(0x0101_1101) == 1 && !NoRequest(1) && (1 as bv32) as nat == 1
  {}

  lemma SixReady()
    ensures Ready(SIX) && Wide(SIX) && Ready(LEFT) && Wide(LEFT) && Size(0x011F_1101) == 1
    ensures Source(SIX, 2, RELOAD, 1) == 1 && Dest(SIX, 1) == 4097 && Left(RELOAD, 1) == 3
    ensures forall k: nat :: k < 5 ==>
              Dest(LEFT, k) == 4097 + k && Source(LEFT, 2, 3, k) == 1 + (if k < 3 then k else k - 3)
    ensures Promised(LEFT, 3) == 4
  {
    SixBits();
    hide De, Te, Tm, Di, Ts, Dm, Sm, Rs, Ro;
  }

  lemma LeftSeparate()
    ensures Separate(BYTES, LEFT, 2, 3)
  {
    SixBits();
    SixReady();
    hide Source, Dest, Size, Dm, Ready;
  }

  /** One unit is moved. */
  lemma OneUnit()
    ensures |POWER_ON.channels| == 4 && Next(Begun(POWER_ON, 2, SIX), 2)
    ensures var o := Cycle(Begun(POWER_ON, 2, SIX), BYTES);
            o.Ok? && o.state == Begun(POWER_ON, 2, LEFT).(phase := Waiting, picked := 2, reload := 3, transfers := 1)
  {
    SixBits();
    SixReady();
    hide Source, Dest, Size, Tm, Ready, Te, De, Inv, TidyChcr, Cycle, Copied, Left;
    var s := Begun(POWER_ON, 2, SIX);
    LoneIsNext(s, 2, SIX);
    StealCycles(s, BYTES, 2, 1);
    OneCycle(s, BYTES);
  }

  lemma OneCycle(s: State, m: Mem)
    requires Resting(s)
    ensures Live(s) && Picked(s) && Cycles(s, m, 1) == Cycle(s, m)
  {
    hide Inv, Cycle;
    InvLive(s);
    NoCycles(s, m);
  }

  /** Waiting for a request that is not configured ends the wait and nothing else. */
  lemma GivenUp(s: State, m: Mem)
    requires Resting(s) && s.phase == Waiting && s.channels[s.picked].chcr == 0x0101_1101 && !s.requests[1].registered
    ensures Cycle(s, m) == Ok(s.(phase := Initial), m)
  {
    SixBits();
    hide Rs, De, TidyChcr, StepTransferring, NoRequest;
  }

  lemma InterruptedIs(a: Event, b: Event, c: Event, d: Event)
    ensures [a] + [b, c, d] == [a, b, c, d] && [b] + [c, d] == [b, c, d] && [c] + [d] == [c, d] && [d] + [] == [d]
  {}

  /** So a transfer can start with a counter that is not full. */
  lemma CounterLeftOver()
    ensures |POWER_ON.channels| == 4 && Resting(Begun(POWER_ON, 2, SIX))
    ensures Run(Begun(POWER_ON, 2, SIX), INTERRUPTED) ==
            Some(Begun(POWER_ON, 2, LEFT).(picked := 2, reload := 3, transfers := 1))
  {
    SixBits();
    OneUnit();
    hide Run, Cycle, Inv, ChcrValue, De, Next;
    var e0, e1, e2, e3 := Clock(BYTES), Long(0x3C, 0x0101_1101), Clock(BYTES), Long(0x3C, 0x011F_1101);
    InterruptedIs(e0, e1, e2, e3);
    var s0 := Begun(POWER_ON, 2, SIX);
    assert Resting(s0) by { NextRests(s0, 2); }
    var s1 := RunClock(s0, BYTES, [e1, e2, e3]);
    var s2 := WriteControl(s1, 2, 0x0101_1101, [e2, e3]);
    GivenUp(s2, BYTES);
    var s3 := RunClock(s2, BYTES, [e3]);
    var s4 := WriteControl(s3, 2, 0x011F_1101, []);
    RunEnds(s4);
    assert s4.channels == Begun(POWER_ON, 2, LEFT).channels;
  }

  lemma NextRests(s: State, c: nat)
    requires Next(s, c)
    ensures Resting(s)
  {}

  lemma {:induction false} RunJoin(s: State, a: seq<Event>, b: seq<Event>)
    requires Resting(s) && Run(s, a).Some?
    ensures Run(s, a + b) == Run(Run(s, a).value, b)
    decreases |a|
  {
    hide Inv, Step;
    InvLive(s);
    if a == [] {
      assert a + b == b;
    } else {
      StepKeeps(s, a[0]);
      RunJoin(Step(s, a[0]).value, a[1..], b);
      assert (a + b)[1..] == a[1..] + b;
    }
  }

  /**
   Power-on, five register writes and the interruption: with RO set, the
   counter starts at 3, and the fourth byte of the transfer is a copy of its
   first where the fourth was promised.
  */
  lemma RoSetMissed()
    ensures Resting(POWER_ON) && Ro(LEFT.chcr) && Promised(LEFT, 3) == 4 && ByteAt(BYTES, 4) == 1
    ensures var r := Run(POWER_ON, Programming(2, 0, 4096, 6, 0x011F_1101) + INTERRUPTED);
            && r.Some? && Next(r.value, 2) && r.value.reload == 3 && r.value.channels[2] == LEFT
            && var o := Cycles(r.value, BYTES, 5);
            o.Ok? && ByteAt(o.mem, 4100) == 0
  {
    Numbers();
    SixBits();
    SixReady();
    LeftSeparate();
    hide Source, Dest, Size, Cycles, Separate, RestKept, Tm, Ro, Ready, Unsigned, ChcrValue, Run, Programming, Promised,
         Te, De, Inv, Choose, TidyChcr;
    ProgrammingReaches(2, 0, 4096, 6, 0x011F_1101);
    RunJoin(POWER_ON, Programming(2, 0, 4096, 6, 0x011F_1101), INTERRUPTED);
    CounterLeftOver();
    var s := Begun(POWER_ON, 2, LEFT).(picked := 2, reload := 3, transfers := 1);
    LoneIsNext(s, 2, LEFT);
    BlockCopied(s, BYTES, 2);
    assert DestByte(LEFT, 3, 0) == 4100;
  }

  // ---------- a burst of two units ----------

  const TWO: Channel := Channel(0, 4096, 2, 0x001F_1109)

  lemma TwoBits()
    ensures De(0x001F_1109) && !Te(0x001F_1109) && Tm(0x001F_1109) && !Di(0x001F_1109)
    ensures Ts(0x001F_1109) == 0 && Rs(0x001F_1109) == AUTO_REQUEST
    ensures TidyChcr(0x001F_1109, 0) && ChcrValue(0, 0, 0x001F_1109) == 0x001F_1109
  {}

  lemma TwoReady()
    ensures Ready(TWO) && Wide(TWO)
  {
    TwoBits();
    hide De, Te, Tm, Di, Ts, Rs;
  }

  /** Power-on, five register writes, two cycles: the burst is over after the first, and the second wraps its count. */
  lemma BurstOverruns()
    ensures Resting(POWER_ON)
    ensures var r := Run(POWER_ON, Programming(0, 0, 4096, 2, 0x001F_1109));
            && r.Some? && Next(r.value, 0) && r.value.channels[0] == TWO
            && !Stopped(Cycles(r.value, BYTES, 1)) && CountWrapped(Cycles(r.value, BYTES, 2), 0)
  {
    Numbers();
    TwoBits();
    TwoReady();
    hide Cycles, Tm, Ready, Unsigned, ChcrValue, Run, Programming, Te, De, Inv, Choose, TidyChcr, Stopped, CountWrapped,
         CountedOut;
    ProgrammingReaches(0, 0, 4096, 2, 0x001F_1109);
    var s := Begun(POWER_ON, 0, TWO);
    LoneIsNext(s, 0, TWO);
    BurstStopsIff(s, BYTES, 0);
  }
}
