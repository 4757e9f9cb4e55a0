/**
 What a programmed transfer does to memory: with an automatic request, n units
 take n cycles in cycle-steal mode and two units a cycle in burst mode.
*/
module DmacCopy {
  import opened Memory
  import opened Dmac

  /** Where a register stands after k units. */
  function Position(a: nat, mode: bv32, size: nat, k: nat): (p: nat)
    requires size <= 8
    ensures a < WORD ==> p < WORD
  {
    if mode == 1 then (a + k * size) % WORD
    else if mode == 2 then (a + k * (WORD - size)) % WORD
    else a
  }

  lemma WrapStep(x: nat, d: nat)
    ensures (x % WORD + d) % WORD == (x + d) % WORD
  {
    var q, r := x / WORD, (x % WORD + d) / WORD;
    assert x + d == WORD * (q + r) + (x % WORD + d) % WORD;
  }

  lemma PositionStep(a: nat, mode: bv32, size: nat, k: nat)
    requires a < WORD && size <= 8
    ensures Position(a, mode, size, 0) == a
    ensures Advance(Position(a, mode, size, k), mode, size) == Position(a, mode, size, k + 1)
  {
    assert Position(a, mode, size, 0) == a by { StartsHere(a, mode, size); }
    if mode == 1 {
      OneMore(a, k, size);
    } else if mode == 2 {
      OneMore(a, k, WORD - size);
    }
  }

  lemma StartsHere(a: nat, mode: bv32, size: nat)
    requires a < WORD && size <= 8
    ensures Position(a, mode, size, 0) == a
  {}

  lemma OneMore(a: nat, k: nat, d: nat)
    ensures ((a + k * d) % WORD + d) % WORD == (a + (k + 1) * d) % WORD
  {
    WrapStep(a + k * d, d);
    assert (k + 1) * d == k * d + d;
  }

  /** Channel 2 goes back to its first source after every fourth unit: how far it is after k units. */
  function Turn(c: nat, reload: nat, k: nat): nat
    requires 1 <= reload
  {
    if c != 2 || k < reload then k else (k - reload) % 4
  }

  function Left(reload: nat, k: nat): (r: nat)
    requires 1 <= reload
    ensures 1 <= r
  {
    if k < reload then reload - k else 4 - (k - reload) % 4
  }

  lemma TurnStep(reload: nat, k: nat)
    requires 1 <= reload <= 4
    ensures Turn(2, reload, k + 1) == if Left(reload, k) == 1 then 0 else Turn(2, reload, k) + 1
    ensures Left(reload, k + 1) == if Left(reload, k) == 1 then 4 else Left(reload, k) - 1
  {
    if k >= reload {
      var x := k - reload;
      assert (x + 1) % 4 == if x % 4 == 3 then 0 else x % 4 + 1;
    }
  }

  // ---------- a programmed channel ----------

  /** Channel c can be served. */
  ghost predicate Programmed(s: State, c: nat) {
    && Resting(s) && c < 4
    && Dme(s.dmaor) && !Nmif(s.dmaor) && !Ae(s.dmaor)
    && Ready(s.channels[c])
  }

  /** Enabled, direct addresses, a real size and count, aligned ends. */
  predicate Ready(ch: Channel) {
    && De(ch.chcr) && !Di(ch.chcr) && Ts(ch.chcr) != 3
    && Aligned(ch.sar, Size(ch.chcr)) && Aligned(ch.dar, Size(ch.chcr))
    && 1 <= ch.tcr < 0x100_0000
  }

  function Source(ch: Channel, c: nat, reload: nat, k: nat): nat
    requires 1 <= reload
  {
    Position(ch.sar, Sm(ch.chcr), Size(ch.chcr), Turn(c, reload, k))
  }

  function Dest(ch: Channel, k: nat): nat { Position(ch.dar, Dm(ch.chcr), Size(ch.chcr), k) }

  /** The state after k of the units. */
  ghost function Moved(s: State, c: nat, k: nat): State
    requires Programmed(s, c) && k <= s.channels[c].tcr
  {
    var ch := s.channels[c];
    var done := k == ch.tcr;
    s.(channels := s.channels[c := Channel(Source(ch, c, s.reload, k), Dest(ch, k), ch.tcr - k,
                                           if done then Ended(ch.chcr) else ch.chcr)],
       picked := c,
       phase := if done then Initial else if Tm(ch.chcr) then Transferring else Waiting,
       reload := if c != 2 then s.reload else if done then RELOAD else Left(s.reload, k),
       initialSar2 := if c == 2 then ch.sar else s.initialSar2,
       transfers := s.transfers + k,
       signals := if done && Ie(ch.chcr) then s.signals + [TransferEnd(c)] else s.signals)
  }

  /** Memory after k of the units, moved one after the other. */
  ghost function Copied(m: Mem, ch: Channel, c: nat, reload: nat, k: nat): Mem
    requires 1 <= reload
  {
    if k == 0 then m
    else
      var before := Copied(m, ch, c, reload, k - 1);
      WriteBytes(before, Dest(ch, k - 1), ReadBytes(before, Source(ch, c, reload, k - 1), Size(ch.chcr)), true)
  }

  // ---------- one unit ----------

  lemma WrapAligned(x: nat, size: nat)
    requires (size == 1 || size == 2 || size == 4) && Aligned(x, size)
    ensures Aligned(x % WORD, size)
  {
    var q := x / WORD;
    assert x % WORD == x - WORD * q;
    if size == 2 {
      assert x % WORD == 2 * (x / 2 - 0x8000_0000 * q);
    } else if size == 4 {
      assert x % WORD == 4 * (x / 4 - 0x4000_0000 * q);
    }
  }

  lemma Step2(a: nat, k: nat, h: nat)
    requires a % 2 == 0
    ensures (a + k * (2 * h)) % 2 == 0
  {
    assert a + k * (2 * h) == 2 * (a / 2 + k * h);
  }

  lemma Step4(a: nat, k: nat, h: nat)
    requires a % 4 == 0
    ensures (a + k * (4 * h)) % 4 == 0
  {
    assert a + k * (4 * h) == 4 * (a / 4 + k * h);
  }

  lemma StepAligned(a: nat, k: nat, size: nat)
    requires (size == 1 || size == 2 || size == 4) && Aligned(a, size)
    ensures Aligned(a + k * size, size) && Aligned(a + k * (WORD - size), size)
  {
    if size == 2 {
      Step2(a, k, 1);
      Step2(a, k, 0x7FFF_FFFF);
    } else if size == 4 {
      Step4(a, k, 1);
      Step4(a, k, 0x3FFF_FFFF);
    }
  }

  lemma PositionAligned(a: nat, mode: bv32, size: nat, k: nat)
    requires (size == 1 || size == 2 || size == 4) && Aligned(a, size)
    ensures Aligned(Position(a, mode, size, k), size)
  {
    StepAligned(a, k, size);
    WrapAligned(a + k * size, size);
    WrapAligned(a + k * (WORD - size), size);
    hide Aligned;
  }

  lemma RealSize(v: bv32)
    requires Ts(v) != 3
    ensures Size(v) == 1 || Size(v) == 2 || Size(v) == 4
  {
    assert Ts(v) == 0 || Ts(v) == 1 || Ts(v) == 2;
  }

  /** The registers after one more unit, before any reload. */
  function Onward(ch: Channel, c: nat, reload: nat, k: nat): Channel
    requires 1 <= reload && k < ch.tcr
  {
    Channel(Position(ch.sar, Sm(ch.chcr), Size(ch.chcr), Turn(c, reload, k) + 1),
            Dest(ch, k + 1), ch.tcr - k - 1, ch.chcr)
  }

  function At(ch: Channel, c: nat, reload: nat, k: nat): Channel
    requires 1 <= reload && k < ch.tcr
  {
    Channel(Source(ch, c, reload, k), Dest(ch, k), ch.tcr - k, ch.chcr)
  }

  lemma AdvancedIsOnward(ch: Channel, c: nat, reload: nat, k: nat)
    requires 1 <= reload <= 4 && Wide(ch) && Ready(ch) && k < ch.tcr
    ensures Wide(At(ch, c, reload, k))
    ensures Advanced(At(ch, c, reload, k)) == Onward(ch, c, reload, k)
  {
    hide Sm, Dm, Rs, Ts, Di, De, Size, Position, Advance, Aligned;
    PositionStep(ch.sar, Sm(ch.chcr), Size(ch.chcr), Turn(c, reload, k));
    PositionStep(ch.dar, Dm(ch.chcr), Size(ch.chcr), k);
  }

  lemma MoveUnit(s: State, m: Mem, c: nat, k: nat)
    requires Programmed(s, c) && k < s.channels[c].tcr
    ensures var ch := s.channels[c];
            var before := Copied(m, ch, c, s.reload, k);
            forall t: State :: Move(t, before, Source(ch, c, s.reload, k), Dest(ch, k), Size(ch.chcr)) ==
                               (t, Copied(m, ch, c, s.reload, k + 1))
  {
    hide Sm, Dm, Rs, Ts, Di, De, Dme, Nmif, Ae, Size, Position, TidyChcr, WriteBytes, ReadBytes;
    var ch := s.channels[c];
    RealSize(ch.chcr);
    PositionAligned(ch.sar, Sm(ch.chcr), Size(ch.chcr), Turn(c, s.reload, k));
  }

  /** Between two units the controller looks like this. */
  ghost function Midway(s: State, c: nat, k: nat, phase: Phase): State
    requires Programmed(s, c) && k < s.channels[c].tcr
  {
    s.(channels := s.channels[c := At(s.channels[c], c, s.reload, k)],
       picked := c,
       phase := phase,
       reload := if c == 2 then Left(s.reload, k) else s.reload,
       initialSar2 := if c == 2 then s.channels[c].sar else s.initialSar2,
       transfers := s.transfers + k)
  }

  lemma PerformUnit(s: State, m: Mem, c: nat, k: nat, phase: Phase)
    requires Programmed(s, c) && k < s.channels[c].tcr
    ensures var ch := s.channels[c];
            var t := Midway(s, c, k, phase);
            && Wide(t.channels[c])
            && PerformTransfer(t, Copied(m, ch, c, s.reload, k), c) ==
               Ok(t.(channels := t.channels[c := Onward(ch, c, s.reload, k)]), Copied(m, ch, c, s.reload, k + 1))
  {
    hide Sm, Dm, Rs, Ts, Di, De, Dme, Nmif, Ae, Size, Position, TidyChcr, WriteBytes, ReadBytes, Advanced, Onward,
         Copied, Move, Aligned;
    AdvancedIsOnward(s.channels[c], c, s.reload, k);
    MoveUnit(s, m, c, k);
  }

  /** After the reload of channel 2 the registers stand where the next unit starts. */
  lemma ReloadUnit(s: State, c: nat, k: nat, phase: Phase)
    requires Programmed(s, c) && k < s.channels[c].tcr
    ensures var ch := s.channels[c];
            var t := Midway(s, c, k, phase);
            Reloaded(t.(channels := t.channels[c := Onward(ch, c, s.reload, k)])) ==
            t.(channels := s.channels[c :=
                 Channel(Source(ch, c, s.reload, k + 1), Dest(ch, k + 1), ch.tcr - k - 1, ch.chcr)],
               reload := if c == 2 then Left(s.reload, k + 1) else s.reload)
  {
    hide Sm, Dm, Rs, Ts, Di, De, Dme, Nmif, Ae, Size, TidyChcr, Aligned, Position;
    var ch := s.channels[c];
    PositionStep(ch.sar, Sm(ch.chcr), Size(ch.chcr), 0);
    if c == 2 {
      TurnStep(s.reload, k);
    }
    var t := Midway(s, c, k, phase);
    var u := t.(channels := t.channels[c := Onward(ch, c, s.reload, k)]);
    var next := Channel(Source(ch, c, s.reload, k + 1), Dest(ch, k + 1), ch.tcr - k - 1, ch.chcr);
    assert Reloaded(u).channels[c] == next;
    assert Reloaded(u).channels == s.channels[c := next];
  }

  lemma ConcludeUnit(s: State, c: nat, k: nat, phase: Phase)
    requires Programmed(s, c) && k < s.channels[c].tcr
    ensures var ch := s.channels[c];
            Concluded(Midway(s, c, k, phase).(
              channels := s.channels[c :=
                Channel(Source(ch, c, s.reload, k + 1), Dest(ch, k + 1), ch.tcr - k - 1, ch.chcr)],
              reload := if c == 2 then Left(s.reload, k + 1) else s.reload)) == Moved(s, c, k + 1)
  {
    hide Sm, Dm, Rs, Ts, Di, De, Dme, Nmif, Ae, Ie, Tm, Ended, Size, TidyChcr, Aligned, Source, Dest, Left;
    var ch := s.channels[c];
    var next := Channel(Source(ch, c, s.reload, k + 1), Dest(ch, k + 1), ch.tcr - k - 1, ch.chcr);
    var t := Midway(s, c, k, phase).(channels := s.channels[c := next],
                                     reload := if c == 2 then Left(s.reload, k + 1) else s.reload);
    assert !MustAbort(t);
    assert Concluded(t).channels == Moved(s, c, k + 1).channels;
  }

  /** One unit takes the state, and memory, from k units to k + 1. */
  lemma UnitStep(s: State, m: Mem, c: nat, k: nat, phase: Phase)
    requires Programmed(s, c) && k < s.channels[c].tcr
    ensures var ch := s.channels[c];
            Live(Midway(s, c, k, phase)) &&
            TransferOne(Midway(s, c, k, phase), Copied(m, ch, c, s.reload, k)) ==
            Ok(Moved(s, c, k + 1), Copied(m, ch, c, s.reload, k + 1))
  {
    hide Ready, TidyChcr, Dme, Nmif, Ae, PerformTransfer, Reloaded, Concluded, Moved, Copied, Left, At, Onward;
    PerformUnit(s, m, c, k, phase);
    ReloadUnit(s, c, k, phase);
    ConcludeUnit(s, c, k, phase);
  }

  // ---------- cycles ----------

  /** The controller run for some cycles. */
  ghost function Cycles(s: State, m: Mem, n: nat): (o: Outcome)
    requires Resting(s)
    ensures o.Ok? ==> Resting(o.state)
  {
    if n == 0 then Ok(s, m)
    else
      match Cycles(s, m, n - 1)
      case Die => Die
      case Ok(t, u) => CycleRests(t, u); Cycle(t, u)
  }

  /** Channel c is the lowest one enabled and unfinished. */
  ghost predicate Chosen(s: State, c: nat) { Programmed(s, c) && s.phase == Initial && Choose(s.channels, 0) == c }

  /** And it needs no request. */
  ghost predicate Next(s: State, c: nat) { Chosen(s, c) && Rs(s.channels[c].chcr) == AUTO_REQUEST }

  lemma NotHalted(s: State, c: nat, k: nat, phase: Phase)
    requires Programmed(s, c) && k < s.channels[c].tcr
    ensures Live(Midway(s, c, k, phase))
    ensures !MustAbort(Midway(s, c, k, phase)) && Midway(s, c, k, phase).channels[c].chcr == s.channels[c].chcr
  {
    hide Sm, Dm, Rs, Ts, Di, De, Dme, Nmif, Ae, Size, TidyChcr, Aligned, Left;
  }

  /** One cycle that starts after k units: one more in cycle-steal mode, two more in burst mode. */
  lemma ServeUnits(s: State, m: Mem, c: nat, k: nat)
    requires Programmed(s, c) && k < s.channels[c].tcr && Rs(s.channels[c].chcr) == AUTO_REQUEST
    ensures var ch := s.channels[c];
            var t := Midway(s, c, k, Waiting);
            var u := Copied(m, ch, c, s.reload, k);
            && Live(t)
            && StepWaiting(t, u) ==
               (if !Tm(ch.chcr) || k + 1 == ch.tcr then Ok(Moved(s, c, k + 1), Copied(m, ch, c, s.reload, k + 1))
                else Ok(Moved(s, c, k + 2).(phase := Waiting), Copied(m, ch, c, s.reload, k + 2)))
  {
    hide Sm, Dm, Rs, Ts, Di, De, Dme, Nmif, Ae, Tm, Ie, Size, TidyChcr, Aligned, TransferOne, Copied, MustAbort, Left,
         Source, Dest, Ended;
    NotHalted(s, c, k, Waiting);
    NotHalted(s, c, k, Transferring);
    UnitStep(s, m, c, k, Transferring);
    if k + 1 < s.channels[c].tcr {
      UnitStep(s, m, c, k + 1, Transferring);
      assert Tm(s.channels[c].chcr) ==> Moved(s, c, k + 1) == Midway(s, c, k + 1, Transferring);
    }
  }

  lemma FirstCycle(s: State, m: Mem, c: nat)
    requires Chosen(s, c)
    ensures Live(Midway(s, c, 0, Waiting))
    ensures Cycle(s, m) == StepWaiting(Midway(s, c, 0, Waiting), m)
  {
    hide Sm, Dm, Rs, Ts, Di, De, Te, Dme, Nmif, Ae, Size, TidyChcr, Aligned, StepWaiting, Position;
    var ch := s.channels[c];
    PositionStep(ch.sar, Sm(ch.chcr), Size(ch.chcr), 0);
    PositionStep(ch.dar, Dm(ch.chcr), Size(ch.chcr), 0);
    assert At(ch, c, s.reload, 0) == ch;
    assert s.channels[c := ch] == s.channels;
    NotHalted(s, c, 0, Waiting);
  }

  /** Cycle-steal mode: after k cycles exactly k units have moved; after the last one the transfer has ended. */
  lemma {:induction false} StealCycles(s: State, m: Mem, c: nat, k: nat)
    requires Next(s, c) && !Tm(s.channels[c].chcr) && 1 <= k <= s.channels[c].tcr
    ensures Cycles(s, m, k) == Ok(Moved(s, c, k), Copied(m, s.channels[c], c, s.reload, k))
  {
    hide Ready, Inv, Tm, Ie, Dme, Nmif, Ae, Left, Source, Dest, StepWaiting, Ended, WriteBytes, ReadBytes;
    InvLive(s);
    ServeUnits(s, m, c, k - 1);
    if k == 1 {
      FirstCycle(s, m, c);
      assert Cycles(s, m, 0) == Ok(s, m);
    } else {
      StealCycles(s, m, c, k - 1);
      assert Moved(s, c, k - 1) == Midway(s, c, k - 1, Waiting);
    }
  }

  /** Burst mode: two units a cycle, always back in the waiting phase, even when the second one was the last. */
  lemma {:induction false} BurstCycles(s: State, m: Mem, c: nat, j: nat)
    requires Next(s, c) && Tm(s.channels[c].chcr) && 1 <= j && 2 * j <= s.channels[c].tcr
    ensures Cycles(s, m, j) == Ok(Moved(s, c, 2 * j).(phase := Waiting), Copied(m, s.channels[c], c, s.reload, 2 * j))
  {
    hide Ready, Inv, Tm, Ie, Dme, Nmif, Ae, Left, Source, Dest, StepWaiting, Ended, WriteBytes, ReadBytes, Copied;
    InvLive(s);
    ServeUnits(s, m, c, 2 * j - 2);
    if j == 1 {
      FirstCycle(s, m, c);
      assert Cycles(s, m, 0) == Ok(s, m);
      NoneCopied(m, s.channels[c], c, s.reload);
    } else {
      BurstCycles(s, m, c, j - 1);
      assert Moved(s, c, 2 * j - 2).(phase := Waiting) == Midway(s, c, 2 * j - 2, Waiting);
    }
  }

  lemma NoneCopied(m: Mem, ch: Channel, c: nat, reload: nat)
    requires 1 <= reload
    ensures Copied(m, ch, c, reload, 0) == m
  {}

  /** An odd burst ends as it should. */
  lemma OddBurst(s: State, m: Mem, c: nat)
    requires Next(s, c) && Tm(s.channels[c].chcr) && s.channels[c].tcr % 2 == 1
    ensures var n := s.channels[c].tcr;
            Cycles(s, m, (n + 1) / 2) == Ok(Moved(s, c, n), Copied(m, s.channels[c], c, s.reload, n))
  {
    hide Ready, Inv, Tm, Ie, Dme, Nmif, Ae, De, Rs, Left, Source, Dest, StepWaiting, Ended, WriteBytes, ReadBytes,
         Copied;
    InvLive(s);
    var n := s.channels[c].tcr;
    ServeUnits(s, m, c, n - 1);
    if n == 1 {
      FirstCycle(s, m, c);
      NoneCopied(m, s.channels[c], c, s.reload);
      assert Cycles(s, m, 0) == Ok(s, m);
    } else {
      var j := (n - 1) / 2;
      BurstCycles(s, m, c, j);
      assert 2 * j == n - 1;
      assert Moved(s, c, n - 1).(phase := Waiting) == Midway(s, c, n - 1, Waiting);
    }
  }

  lemma EndedKeepsRequest(v: bv32)
    ensures De(Ended(v)) == De(v) && Rs(Ended(v)) == Rs(v) && Ts(Ended(v)) == Ts(v)
  {}

  lemma TransferringWraps(t: State, m: Mem)
    requires Live(t) && 0 <= t.picked < 4 && !MustAbort(t)
    requires t.channels[t.picked].tcr == 0 && Ts(t.channels[t.picked].chcr) != 3
    ensures StepTransferring(t, m).Ok?
    ensures var r := StepTransferring(t, m).state; Live(r) && r.channels[t.picked].tcr >= WORD - 2
  {
    hide MustAbort, TransferOne, Ts;
    TransferLive(t, m);
    match TransferOne(t, m)
    case Ok(s2, m2) => TransferLive(s2, m2);
  }

  /** A channel with an exhausted count that is still being served wraps its count around. */
  lemma CountWraps(t: State, m: Mem)
    requires Live(t) && 0 <= t.picked < 4 && !MustAbort(t)
    requires var ch := t.channels[t.picked]; ch.tcr == 0 && Rs(ch.chcr) == AUTO_REQUEST && Ts(ch.chcr) != 3
    ensures StepWaiting(t, m).Ok?
    ensures var r := StepWaiting(t, m).state; Live(r) && r.channels[t.picked].tcr >= WORD - 2
  {
    hide De, Dme, Nmif, Ae, StepTransferring, Rs, Ts, NoRequest;
    TransferringWraps(t.(phase := Transferring), m);
  }

  /** All units are copied, the count is nought and the end is flagged. */
  ghost predicate CountedOut(o: Outcome, c: nat, copied: Mem, was: bv32) {
    && o.Ok? && o.mem == copied && c < |o.state.channels|
    && o.state.channels[c].tcr == 0 && o.state.channels[c].chcr == Ended(was)
  }

  ghost predicate Stopped(o: Outcome) { o.Ok? && o.state.phase == Initial }

  /** The count has gone past nought. */
  ghost predicate CountWrapped(o: Outcome, c: nat) {
    o.Ok? && c < |o.state.channels| && o.state.channels[c].tcr >= WORD - 2
  }

  /**
   A burst of n units stops when its count runs out if and only if n is odd.
   An even one moves on past its end, and its count wraps around.
  */
  lemma BurstStopsIff(s: State, m: Mem, c: nat)
    requires Next(s, c) && Tm(s.channels[c].chcr)
    ensures var ch := s.channels[c];
            CountedOut(Cycles(s, m, (ch.tcr + 1) / 2), c, Copied(m, ch, c, s.reload, ch.tcr), ch.chcr)
    ensures var n := s.channels[c].tcr;
            && (Stopped(Cycles(s, m, (n + 1) / 2)) <==> n % 2 == 1)
            && (n % 2 == 0 ==> CountWrapped(Cycles(s, m, n / 2 + 1), c))
  {
    hide Ready, Inv, Tm, Ie, Dme, Nmif, Ae, De, Rs, Ts, Left, Source, Dest, StepWaiting, Ended, WriteBytes, ReadBytes,
         Copied;
    var n := s.channels[c].tcr;
    InvLive(s);
    ReadyCount(s.channels[c]);
    if n % 2 == 1 {
      OddBurst(s, m, c);
    } else {
      var j := n / 2;
      assert n == 2 * j && (n + 1) / 2 == j;
      BurstCycles(s, m, c, j);
      var t := Moved(s, c, n).(phase := Waiting);
      InvLive(t);
      EndedKeepsRequest(s.channels[c].chcr);
      CountWraps(t, Copied(m, s.channels[c], c, s.reload, n));
    }
  }

  lemma ReadyCount(ch: Channel)
    requires Ready(ch)
    ensures 1 <= ch.tcr < 0x100_0000 && De(ch.chcr) && Ts(ch.chcr) != 3
  {}

  // ---------- what memory then holds ----------

  lemma UnitsApart(x: nat, y: nat, size: nat, i: nat, j: nat)
    requires (size == 1 || size == 2 || size == 4) && Aligned(x, size) && Aligned(y, size)
    requires x != y && i < size && j < size
    ensures x + i != y + j
  {
    if size == 2 {
      var p, q := x / 2, y / 2;
      assert x == 2 * p && y == 2 * q;
    } else if size == 4 {
      WordsApart(x, y, i, j);
    }
  }

  lemma WrapDiffer(x: nat, y: nat)
    requires 0 < y - x < WORD
    ensures x % WORD != y % WORD
  {
    var p, q := x / WORD, y / WORD;
    assert x == WORD * p + x % WORD && y == WORD * q + y % WORD;
  }

  lemma Products(size: nat, j: nat, n: nat)
    requires 1 <= size <= 8 && 1 <= n
    ensures 0 < n * size
    ensures (j + n) * size == j * size + n * size
    ensures (j + n) * (WORD - size) == j * (WORD - size) + (n * WORD - n * size)
  {
    assert n * size >= size by {
      assert (n - 1) * size >= 0;
    }
    assert n * (WORD - size) == n * WORD - n * size;
  }

  /** Going forward or backward by less than the address space ends elsewhere. */
  lemma MovedDiffer(x: nat, n: nat, d: nat)
    requires 0 < d < WORD && 1 <= n
    ensures x % WORD != (x + d) % WORD
    ensures 0 <= n * WORD - d && x % WORD != (x + (n * WORD - d)) % WORD
  {
    WrapDiffer(x, x + d);
    assert n * WORD >= WORD;
    WrapDiffer(x + (n * WORD - d), x + n * WORD);
    SameWrap(x, n);
  }

  /** A register that moves is never twice at the same place within the address space. */
  lemma PositionsDiffer(a: nat, mode: bv32, size: nat, j: nat, k: nat)
    requires (mode == 1 || mode == 2) && 1 <= size <= 8 && j < k && (k - j) * size < WORD
    ensures Position(a, mode, size, j) != Position(a, mode, size, k)
  {
    StepsDiffer(a, size, j, k - j);
  }

  lemma StepsDiffer(a: nat, size: nat, j: nat, n: nat)
    requires 1 <= size <= 8 && 1 <= n && n * size < WORD
    ensures (a + j * size) % WORD != (a + (j + n) * size) % WORD
    ensures (a + j * (WORD - size)) % WORD != (a + (j + n) * (WORD - size)) % WORD
  {
    Products(size, j, n);
    MovedDiffer(a + j * size, n, n * size);
    MovedDiffer(a + j * (WORD - size), n, n * size);
  }

  lemma DestsDiffer(ch: Channel, j: nat, k: nat)
    requires Ready(ch) && (Dm(ch.chcr) == 1 || Dm(ch.chcr) == 2) && j < k < ch.tcr
    ensures Dest(ch, j) != Dest(ch, k)
  {
    hide De, Rs, Di, Size, Aligned, Dm, Ts, Position;
    RealSize(ch.chcr);
    assert (k - j) * Size(ch.chcr) < WORD;
    PositionsDiffer(ch.dar, Dm(ch.chcr), Size(ch.chcr), j, k);
  }

  lemma SameWrap(x: nat, n: nat)
    ensures (x + n * WORD) % WORD == x % WORD
  {
    assert x + n * WORD == WORD * (x / WORD + n) + x % WORD;
  }

  /** The destinations are writable, apart from each other and from the sources. */
  ghost predicate Separate(m: Mem, ch: Channel, c: nat, reload: nat) {
    && WellFormed(m) && Wide(ch) && Ready(ch) && 1 <= reload <= 4
    && (Dm(ch.chcr) == 1 || Dm(ch.chcr) == 2)
    && (forall k :: 0 <= k < ch.tcr ==> Writable(m, Dest(ch, k)))
    && (forall j, k :: 0 <= j < ch.tcr && 0 <= k < ch.tcr ==> Source(ch, c, reload, j) != Dest(ch, k))
  }

  lemma CopiedShape(m: Mem, ch: Channel, c: nat, reload: nat, n: nat)
    requires 1 <= reload
    ensures Copied(m, ch, c, reload, n).bytes.Keys == m.bytes.Keys && Copied(m, ch, c, reload, n).rom == m.rom
  {
    hide Source, Dest, ReadBytes, Size, Accepts;
  }

  lemma UnitAligned(m: Mem, ch: Channel, c: nat, reload: nat, k: nat)
    requires Separate(m, ch, c, reload)
    ensures var d := Size(ch.chcr);
            && (d == 1 || d == 2 || d == 4)
            && Aligned(Source(ch, c, reload, k), d) && Aligned(Dest(ch, k), d)
            && Source(ch, c, reload, k) < WORD && Dest(ch, k) < WORD
            && Source(ch, c, reload, k) + d <= WORD && Dest(ch, k) + d <= WORD
  {
    hide Size, Sm, Dm, De, Rs, Ts, Di, Aligned, Position;
    RealSize(ch.chcr);
    PositionAligned(ch.sar, Sm(ch.chcr), Size(ch.chcr), Turn(c, reload, k));
    PositionAligned(ch.dar, Dm(ch.chcr), Size(ch.chcr), k);
    Room(Source(ch, c, reload, k), Size(ch.chcr), WORD);
    Room(Dest(ch, k), Size(ch.chcr), WORD);
  }

  /** A byte outside every destination unit keeps its value. */
  lemma {:induction false} Untouched(m: Mem, ch: Channel, c: nat, reload: nat, n: nat, x: nat)
    requires Separate(m, ch, c, reload) && n <= ch.tcr
    requires forall k :: 0 <= k < n ==> !(Dest(ch, k) <= Canon(x) < Dest(ch, k) + Size(ch.chcr))
    ensures ByteAt(Copied(m, ch, c, reload, n), x) == ByteAt(m, x)
  {
    hide Source, Dest, ReadBytes, Size, ByteAt, Accepts, WriteBytes, Ready, Dm, WellFormed, Writable;
    if n > 0 {
      var before := Copied(m, ch, c, reload, n - 1);
      var unit := ReadBytes(before, Source(ch, c, reload, n - 1), Size(ch.chcr));
      UnitAligned(m, ch, c, reload, n - 1);
      Untouched(m, ch, c, reload, n - 1, x);
      WriteByteAt(before, Dest(ch, n - 1), unit, true, x);
    }
  }

  /** The latest unit has landed at its destination. */
  lemma JustLanded(m: Mem, ch: Channel, c: nat, reload: nat, k: nat, i: nat)
    requires Separate(m, ch, c, reload) && k < ch.tcr && i < Size(ch.chcr)
    ensures ByteAt(Copied(m, ch, c, reload, k + 1), Dest(ch, k) + i) == ByteAt(m, Source(ch, c, reload, k) + i)
  {
    hide Source, Dest, Size, Accepts, WriteBytes, ByteAt, Separate, Ready, Dm, Aligned;
    SeparateMoves(m, ch, c, reload);
    var before := Copied(m, ch, c, reload, k);
    UnitAligned(m, ch, c, reload, k);
    WritableUnit(m, ch, c, reload, k, i);
    SourceIntact(m, ch, c, reload, k, i);
    WriteByteAt(before, Dest(ch, k), ReadBytes(before, Source(ch, c, reload, k), Size(ch.chcr)), true, Dest(ch, k) + i);
  }

  lemma SeparateMoves(m: Mem, ch: Channel, c: nat, reload: nat)
    requires Separate(m, ch, c, reload)
    ensures Ready(ch) && (Dm(ch.chcr) == 1 || Dm(ch.chcr) == 2) && 1 <= reload
  {}

  /** The next unit lands elsewhere. */
  lemma LandsElsewhere(m: Mem, ch: Channel, c: nat, reload: nat, n: nat, k: nat, i: nat)
    requires Separate(m, ch, c, reload) && k < n < ch.tcr && i < Size(ch.chcr)
    ensures ByteAt(Copied(m, ch, c, reload, n + 1), Dest(ch, k) + i) ==
            ByteAt(Copied(m, ch, c, reload, n), Dest(ch, k) + i)
  {
    hide Source, Dest, Size, Accepts, WriteBytes, ReadBytes, ByteAt, Ready, Dm, Aligned, Separate;
    SeparateMoves(m, ch, c, reload);
    var before, d, x := Copied(m, ch, c, reload, n), Size(ch.chcr), Dest(ch, k) + i;
    UnitAligned(m, ch, c, reload, n);
    UnitAligned(m, ch, c, reload, k);
    DestsDiffer(ch, k, n);
    if Dest(ch, n) <= x < Dest(ch, n) + d {
      UnitsApart(Dest(ch, k), Dest(ch, n), d, i, x - Dest(ch, n));
    }
    WriteByteAt(before, Dest(ch, n), ReadBytes(before, Source(ch, c, reload, n), d), true, x);
  }

  /** The destination of unit k holds, from then on, what its source held at the start. */
  lemma {:induction false} Landed(m: Mem, ch: Channel, c: nat, reload: nat, n: nat, k: nat, i: nat)
    requires Separate(m, ch, c, reload) && k < n <= ch.tcr && i < Size(ch.chcr)
    ensures ByteAt(Copied(m, ch, c, reload, n), Dest(ch, k) + i) == ByteAt(m, Source(ch, c, reload, k) + i)
  {
    hide Source, Dest, Size, ByteAt, Copied, Separate;
    SeparateMoves(m, ch, c, reload);
    if k == n - 1 {
      JustLanded(m, ch, c, reload, k, i);
    } else {
      Landed(m, ch, c, reload, n - 1, k, i);
      LandsElsewhere(m, ch, c, reload, n - 1, k, i);
    }
  }

  lemma SourceIntact(m: Mem, ch: Channel, c: nat, reload: nat, k: nat, i: nat)
    requires Separate(m, ch, c, reload) && k < ch.tcr && i < Size(ch.chcr)
    ensures ByteAt(Copied(m, ch, c, reload, k), Source(ch, c, reload, k) + i) == ByteAt(m, Source(ch, c, reload, k) + i)
  {
    hide Source, Dest, Size, Accepts, WriteBytes, ByteAt, Ready, Dm, Copied, Aligned;
    var d := Size(ch.chcr);
    UnitAligned(m, ch, c, reload, k);
    var x := Source(ch, c, reload, k) + i;
    assert Canon(x) == x;
    forall j | 0 <= j < k ensures !(Dest(ch, j) <= Canon(x) < Dest(ch, j) + d) {
      UnitAligned(m, ch, c, reload, j);
      if Dest(ch, j) <= x < Dest(ch, j) + d {
        UnitsApart(Source(ch, c, reload, k), Dest(ch, j), d, i, x - Dest(ch, j));
      }
    }
    Untouched(m, ch, c, reload, k, x);
  }

  lemma WritableUnit(m: Mem, ch: Channel, c: nat, reload: nat, k: nat, i: nat)
    requires Separate(m, ch, c, reload) && k < ch.tcr && i < Size(ch.chcr)
    ensures Accepts(Copied(m, ch, c, reload, k), Dest(ch, k), true)
    ensures Wired(Copied(m, ch, c, reload, k), Dest(ch, k) + i)
  {
    hide Source, Dest, Size, Ready, Dm, Copied;
    CopiedShape(m, ch, c, reload, k);
    UnitAligned(m, ch, c, reload, k);
    AlignedStays(Dest(ch, k), Size(ch.chcr), i);
    assert Writable(m, Dest(ch, k));
    assert Canon(Dest(ch, k)) in m.bytes && Canon(Dest(ch, k) + i) < SPACE;
  }

  /** Byte i of the k-th destination. */
  function DestByte(ch: Channel, k: nat, i: nat): nat { Dest(ch, k) + i }

  /** Every destination unit holds what its source unit held. */
  ghost predicate UnitsCopied(m: Mem, m': Mem, ch: Channel, c: nat, reload: nat)
    requires 1 <= reload
  {
    forall k, i :: 0 <= k < ch.tcr && 0 <= i < Size(ch.chcr) ==>
      ByteAt(m', DestByte(ch, k, i)) == ByteAt(m, Source(ch, c, reload, k) + i)
  }

  ghost predicate Overwritten(ch: Channel, x: nat) {
    exists k :: 0 <= k < ch.tcr && Dest(ch, k) <= Canon(x) < Dest(ch, k) + Size(ch.chcr)
  }

  /** Every byte outside the destinations is as it was. */
  ghost predicate RestKept(m: Mem, m': Mem, ch: Channel) {
    forall x: nat :: !Overwritten(ch, x) ==> ByteAt(m', x) == ByteAt(m, x)
  }

  lemma CopiedContents(m: Mem, ch: Channel, c: nat, reload: nat)
    requires Separate(m, ch, c, reload)
    ensures UnitsCopied(m, Copied(m, ch, c, reload, ch.tcr), ch, c, reload)
    ensures RestKept(m, Copied(m, ch, c, reload, ch.tcr), ch)
  {
    hide Source, Dest, Size, ByteAt, Canon, Copied, Ready, Dm, WellFormed, Writable;
    var m' := Copied(m, ch, c, reload, ch.tcr);
    forall k, i | 0 <= k < ch.tcr && 0 <= i < Size(ch.chcr)
      ensures ByteAt(m', DestByte(ch, k, i)) == ByteAt(m, Source(ch, c, reload, k) + i)
    {
      Landed(m, ch, c, reload, ch.tcr, k, i);
    }
    forall x: nat | !Overwritten(ch, x)
      ensures ByteAt(m', x) == ByteAt(m, x)
    {
      Untouched(m, ch, c, reload, ch.tcr, x);
    }
  }

  /**
   The whole transfer in cycle-steal mode: n cycles later every destination
   unit holds what its source unit held, every other byte is as it was, the
   count is 0, the transfer has ended, and the end was signalled if asked for.
  */
  lemma BlockCopied(s: State, m: Mem, c: nat)
    requires Next(s, c) && !Tm(s.channels[c].chcr) && Separate(m, s.channels[c], c, s.reload)
    ensures var ch := s.channels[c];
            var o := Cycles(s, m, ch.tcr);
            && o.Ok? && UnitsCopied(m, o.mem, ch, c, s.reload) && RestKept(m, o.mem, ch)
            && o.state.phase == Initial && o.state.channels[c].tcr == 0 && o.state.channels[c].chcr == Ended(ch.chcr)
            && o.state.transfers == s.transfers + ch.tcr
            && o.state.signals == s.signals + (if Ie(ch.chcr) then [TransferEnd(c)] else [])
            && (forall d :: 0 <= d < 4 && d != c ==> o.state.channels[d] == s.channels[d])
  {
    hide Source, Dest, Size, Copied, Cycles, Tm, Ie, Ended, Separate, UnitsCopied, RestKept, Ready, TidyChcr;
    ReadyCount(s.channels[c]);
    StealCycles(s, m, c, s.channels[c].tcr);
    CopiedContents(m, s.channels[c], c, s.reload);
  }
}
