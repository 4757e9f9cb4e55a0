/**
 The source reload of channel 2: what its transfers read, what the manual and
 the RO bit promise, and exactly when the two agree.
*/
module DmacReload {
  import opened Options
  import opened Memory
  import opened Dmac
  import opened DmacCopy

  // ---------- what a transfer reads ----------

  ghost predicate SourceStands(o: Outcome, c: nat, at: nat) {
    o.Ok? && c < |o.state.channels| && o.state.channels[c].sar == at
  }

  /**
   Whatever RO says, the source goes back after as many units as the counter
   starts with, and from then on after every four: so it stands, in each mode,
   after k units.
  */
  lemma ReloadEveryFour(s: State, m: Mem, k: nat)
    requires Next(s, 2) && !Tm(s.channels[2].chcr) && k <= s.channels[2].tcr
    ensures var ch, n := s.channels[2], if k < s.reload then k else (k - s.reload) % 4;
            SourceStands(Cycles(s, m, k), 2, Position(ch.sar, Sm(ch.chcr), Size(ch.chcr), n))
  {
    hide Ready, Inv, Tm, Ie, Dme, Nmif, Ae, Dest, Position, Copied, Size, Sm, Choose, Ended, Left, Cycles;
    InvLive(s);
    var ch := s.channels[2];
    if k == 0 {
      NoCycles(s, m);
      PositionStep(ch.sar, Sm(ch.chcr), Size(ch.chcr), 0);
    } else {
      StealCycles(s, m, 2, k);
    }
  }

  lemma NoCycles(s: State, m: Mem)
    requires Resting(s)
    ensures Cycles(s, m, 0) == Ok(s, m)
  {
    hide Inv;
  }

  /** Channel 2 reads consecutive units exactly when its source stands still or it ends before the first reload. */
  lemma ReloadHarmlessIff(ch: Channel, reload: nat)
    requires Ready(ch) && Wide(ch) && 1 <= reload <= 4
    ensures (forall k: nat :: k < ch.tcr ==>
               Source(ch, 2, reload, k) == Position(ch.sar, Sm(ch.chcr), Size(ch.chcr), k))
            <==> (Sm(ch.chcr) != 1 && Sm(ch.chcr) != 2) || ch.tcr <= reload
  {
    hide De, Rs, Di, Size, Aligned, Ts, Sm;
    if (Sm(ch.chcr) == 1 || Sm(ch.chcr) == 2) && reload < ch.tcr {
      assert Turn(2, reload, reload) == 0;
      PositionsDiffer(ch.sar, Sm(ch.chcr), Size(ch.chcr), 0, reload);
      assert Source(ch, 2, reload, reload) != Position(ch.sar, Sm(ch.chcr), Size(ch.chcr), reload);
    }
  }

  // ---------- what is promised ----------

  /** With RO set the source goes back after every fourth unit of the transfer, with RO clear it never does. */
  function Promised(ch: Channel, k: nat): nat {
    Position(ch.sar, Sm(ch.chcr), Size(ch.chcr), if Ro(ch.chcr) then k % 4 else k)
  }

  /**
   Channel 2 reads what is promised exactly when its source stands still, when
   it ends before the first reload, or when RO is set and the counter is full.
  */
  lemma RoHonouredIff(ch: Channel, reload: nat)
    requires Ready(ch) && Wide(ch) && 1 <= reload <= 4
    ensures (forall k: nat :: k < ch.tcr ==> Source(ch, 2, reload, k) == Promised(ch, k))
            <==> (Sm(ch.chcr) != 1 && Sm(ch.chcr) != 2) || ch.tcr <= reload || (Ro(ch.chcr) && reload == 4)
  {
    hide Ready, Wide, Ro, Sm, Size;
    if !Ro(ch.chcr) {
      ReloadHarmlessIff(ch, reload);
      assert forall k: nat :: Promised(ch, k) == Position(ch.sar, Sm(ch.chcr), Size(ch.chcr), k);
    } else if reload == 4 {
      forall k: nat ensures Turn(2, 4, k) == k % 4 { FullTurn(k); }
    } else if (Sm(ch.chcr) == 1 || Sm(ch.chcr) == 2) && reload < ch.tcr {
      assert Turn(2, reload, reload) == 0 && reload % 4 == reload;
      FewUnits(ch, reload);
      PositionsDiffer(ch.sar, Sm(ch.chcr), Size(ch.chcr), 0, reload);
      assert Source(ch, 2, reload, reload) != Promised(ch, reload);
    } else if ch.tcr <= reload {
      assert forall k: nat :: k < ch.tcr ==> Turn(2, reload, k) == k % 4;
    }
  }

  lemma FullTurn(k: nat)
    ensures Turn(2, 4, k) == k % 4
  {
    if k >= 4 {
      assert (k - 4) % 4 == k % 4;
    }
  }

  lemma FewUnits(ch: Channel, n: nat)
    requires n <= 4
    ensures 1 <= Size(ch.chcr) <= 8 && n * Size(ch.chcr) < WORD
  {
    hide Ts;
  }

  // ---------- what is left in memory ----------

  /** Destination unit k holds what the source held where it stood by then. */
  ghost predicate CopiedByTurns(m: Mem, m': Mem, ch: Channel, reload: nat)
    requires 1 <= reload
  {
    forall k, i :: 0 <= k < ch.tcr && 0 <= i < Size(ch.chcr) ==>
      ByteAt(m', DestByte(ch, k, i)) ==
      ByteAt(m, Position(ch.sar, Sm(ch.chcr), Size(ch.chcr), if k < reload then k else (k - reload) % 4) + i)
  }

  /** Destination unit k holds what it was promised. */
  ghost predicate CopiedAsPromised(m: Mem, m': Mem, ch: Channel) {
    forall k, i :: 0 <= k < ch.tcr && 0 <= i < Size(ch.chcr) ==>
      ByteAt(m', DestByte(ch, k, i)) == ByteAt(m, Promised(ch, k) + i)
  }

  /** What a transfer on channel 2 leaves in memory, in every source mode and from every value of the counter. */
  lemma Channel2Copied(s: State, m: Mem)
    requires Next(s, 2) && !Tm(s.channels[2].chcr) && Separate(m, s.channels[2], 2, s.reload)
    ensures var ch, o := s.channels[2], Cycles(s, m, s.channels[2].tcr);
            && o.Ok? && RestKept(m, o.mem, ch) && CopiedByTurns(m, o.mem, ch, s.reload)
            && ((Sm(ch.chcr) != 1 && Sm(ch.chcr) != 2) || ch.tcr <= s.reload || (Ro(ch.chcr) && s.reload == 4) ==>
                  CopiedAsPromised(m, o.mem, ch))
  {
    hide Position, Dest, Size, Cycles, Tm, RestKept, Sm, Ro, ByteAt, DestByte, Ready, Dm, WellFormed, Writable,
         Promised;
    BlockCopied(s, m, 2);
    RoHonouredIff(s.channels[2], s.reload);
  }

  // ---------- when a transfer starts with a full counter ----------

  /** The counter is full, except in the middle of a transfer of channel 2. */
  ghost predicate Full(s: State) { s.reload == RELOAD || (s.phase != Initial && s.picked == 2) }

  /** The channel waits for a request that is not configured, or that comes for another address. */
  ghost predicate GivesUp(s: State)
    requires Live(s) && 0 <= s.picked < 4
  {
    var ch := s.channels[s.picked];
    RsFits(ch.chcr);
    var r := s.requests[Rs(ch.chcr) as nat];
    && Rs(ch.chcr) != AUTO_REQUEST && !NoRequest(Rs(ch.chcr))
    && (!r.registered ||
        (r.pending && r.kind != DoNotCare && (if r.kind == Receive then ch.sar else ch.dar) != r.addr))
  }

  /** Channel 2 is part of the way to its next reload, and gives up waiting. */
  ghost predicate LeavesOver(s: State)
    requires Live(s) && Picked(s)
  {
    s.phase == Waiting && s.picked == 2 && s.reload != RELOAD && GivesUp(s)
  }

  lemma ConcludedFull(s: State)
    requires 0 <= s.picked < |s.channels| && (s.reload == RELOAD || s.picked == 2)
    ensures var r := Concluded(s);
            r.picked == s.picked && Full(r) && (r.reload == RELOAD || r.picked == 2)
  {
    hide De, Ie, Tm, Nmif, Ae, Dme, Ended;
  }

  lemma UnitFull(s: State, m: Mem)
    requires Live(s) && 0 <= s.picked < 4 && (s.reload == RELOAD || s.picked == 2) && TransferOne(s, m).Ok?
    ensures var r := TransferOne(s, m).state;
            r.picked == s.picked && Full(r) && (r.reload == RELOAD || r.picked == 2)
  {
    hide PerformTransfer, Concluded, Ts, Advanced, Wide, Full;
    PerformShape(s, m, s.picked);
    var t := PerformTransfer(s, m, s.picked).state;
    ConcludedFull(Reloaded(t));
  }

  lemma TransferringFull(s: State, m: Mem)
    requires Live(s) && 0 <= s.picked < 4 && (s.reload == RELOAD || s.picked == 2) && StepTransferring(s, m).Ok?
    ensures StepTransferring(s, m).state.picked == s.picked && Full(StepTransferring(s, m).state)
  {
    hide TransferOne, De, Nmif, Ae, Dme;
    if !MustAbort(s) {
      TransferLive(s, m);
      UnitFull(s, m);
      var s1, m1 := TransferOne(s, m).state, TransferOne(s, m).mem;
      if s1.phase == Transferring {
        UnitFull(s1, m1);
      }
    }
  }

  lemma WaitingFull(s: State, m: Mem)
    requires Live(s) && 0 <= s.picked < 4 && s.phase == Waiting && Full(s) && StepWaiting(s, m).Ok?
    ensures Full(StepWaiting(s, m).state) <==> !(s.reload != RELOAD && GivesUp(s))
  {
    hide StepTransferring, Rs, NoRequest;
    var ch := s.channels[s.picked];
    RsFits(ch.chcr);
    var rs := Rs(ch.chcr);
    if rs == AUTO_REQUEST {
      TransferringFull(s.(phase := Transferring), m);
    } else {
      var r := s.requests[rs as nat];
      if r.registered && r.pending && !GivesUp(s) {
        var s1 := s.(requests := s.requests[rs as nat := r.(pending := false)]);
        TransferringFull(s1.(phase := Transferring), m);
      }
    }
  }

  /** Only a cycle in which channel 2 gives up between reloads leaves a counter that is not full. */
  lemma CycleFullIff(s: State, m: Mem)
    requires Resting(s) && Full(s) && Cycle(s, m).Ok?
    ensures Full(Cycle(s, m).state) <==> !LeavesOver(s)
  {
    hide StepWaiting, De, Te, Nmif, Ae, Dme, TidyChcr, GivesUp;
    if s.phase == Waiting {
      WaitingFull(s, m);
    } else if Dme(s.dmaor) && !Nmif(s.dmaor) && !Ae(s.dmaor) && Choose(s.channels, 0) >= 0 {
      WaitingFull(Selected(s, Choose(s.channels, 0)), m);
    }
  }

  lemma WriteReload(s: State, offset: nat, w: bv16, l: bv32)
    requires |s.channels| == 4
    ensures Write16(s, offset, w).reload == s.reload || Write16(s, offset, w).reload == RELOAD
    ensures Dmac.Write32(s, offset, l).reload == s.reload || Dmac.Write32(s, offset, l).reload == RELOAD
  {
    hide ChcrValue, De, MergeNat, MergeWord, Unsigned;
  }

  lemma StepFullIff(s: State, e: Event)
    requires Resting(s) && Full(s) && Step(s, e).Some?
    ensures Full(Step(s, e).value) <==> !(e.Clock? && LeavesOver(s))
  {
    hide Cycle, Write16, Dmac.Write32, LeavesOver, TidyChcr;
    match e
    case Word(offset, v) => WritesKeepPhase(s, offset, v, 0); WriteReload(s, offset, v, 0);
    case Long(offset, v) => WritesKeepPhase(s, offset, 0, v); WriteReload(s, offset, 0, v);
    case Clock(m) => CycleFullIff(s, m);
    case _ =>
  }

  /** Channel 2 never gives up between reloads. */
  ghost predicate Persistent(s: State, events: seq<Event>)
    requires Resting(s)
    decreases |events|
  {
    events != [] ==>
      && !(events[0].Clock? && LeavesOver(s))
      && (StepKeeps(s, events[0]);
          Step(s, events[0]).Some? ==> Persistent(Step(s, events[0]).value, events[1..]))
  }

  lemma {:induction false} PersistentKeepsFull(s: State, events: seq<Event>)
    requires Resting(s) && Full(s) && Persistent(s, events) && Run(s, events).Some?
    ensures Full(Run(s, events).value)
    decreases |events|
  {
    hide Inv, Full, Step, LeavesOver;
    InvLive(s);
    if events != [] {
      StepKeeps(s, events[0]);
      StepFullIff(s, events[0]);
      PersistentKeepsFull(Step(s, events[0]).value, events[1..]);
    }
  }

  /**
   So from power-on, while channel 2 never gives up between reloads, every
   transfer with RO set reads what it should.
  */
  lemma PersistentHonoursRo(events: seq<Event>)
    requires Resting(POWER_ON) && Persistent(POWER_ON, events) && Run(POWER_ON, events).Some?
    requires var s := Run(POWER_ON, events).value; Next(s, 2) && Ro(s.channels[2].chcr)
    ensures var ch := Run(POWER_ON, events).value.channels[2];
            forall k: nat :: k < ch.tcr ==> Source(ch, 2, RELOAD, k) == Promised(ch, k)
    ensures Run(POWER_ON, events).value.reload == RELOAD
  {
    hide Run, Persistent, Source, Promised, Ready, Ro, Sm, Choose;
    PersistentKeepsFull(POWER_ON, events);
    RoHonouredIff(Run(POWER_ON, events).value.channels[2], RELOAD);
  }
}
