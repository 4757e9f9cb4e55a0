/**
 Transfers at the request of a peripheral: a request moves one unit and is
 used up, and without a request nothing moves.
*/
module DmacRequests {
  import opened Options
  import opened Memory
  import opened Dmac
  import opened DmacCopy

  // ---------- one request, one unit ----------

  /** The address the request is for. */
  predicate Fits(r: Request, sar: nat, dar: nat) {
    match r.kind
    case DoNotCare => true
    case Receive => sar == r.addr
    case Transmit => dar == r.addr
  }

  /** Channel c serves request i, which is configured and not pending. */
  ghost predicate Bound(s: State, c: nat, i: nat) {
    && Programmed(s, c) && i < 32 && Rs(s.channels[c].chcr) as nat == i
    && Rs(s.channels[c].chcr) != AUTO_REQUEST && !NoRequest(Rs(s.channels[c].chcr))
    && s.requests[i].registered && !s.requests[i].pending
  }

  /** The request fits the k-th unit of the transfer. */
  ghost predicate FitsUnit(s: State, c: nat, i: nat, k: nat)
    requires Bound(s, c, i)
  {
    var ch := s.channels[c];
    Fits(s.requests[i], Source(ch, c, s.reload, k), Dest(ch, k))
  }

  function Pended(s: State, i: nat, on: bool): State
    requires i < |s.requests|
  {
    s.(requests := s.requests[i := s.requests[i].(pending := on)])
  }

  lemma SourceNumber(rs: bv32)
    requires rs < 32
    ensures rs as nat < 32 && (rs as nat) as bv32 == rs && (rs == AUTO_REQUEST <==> rs as nat == 31)
  {}

  lemma AskedIs(s: State, c: nat, i: nat, t: State)
    requires Bound(s, c, i) && t.requests == s.requests
    ensures Ask(t, i) == Pended(t, i, true)
  {
    hide Ready, NoRequest, Rs;
    RsFits(s.channels[c].chcr);
    RsSmall(s.channels[c].chcr);
    SourceNumber(Rs(s.channels[c].chcr));
  }

  lemma RsSmall(v: bv32)
    ensures Rs(v) < 32
  {}

  /** A waiting channel that gets its request moves the next unit, and the request is gone. */
  lemma ServeRequest(s: State, m: Mem, c: nat, i: nat, k: nat)
    requires Bound(s, c, i) && k < s.channels[c].tcr && !Tm(s.channels[c].chcr) && FitsUnit(s, c, i, k)
    ensures var t := Pended(Midway(s, c, k, Waiting), i, true);
            && Live(t)
            && StepWaiting(t, Copied(m, s.channels[c], c, s.reload, k)) ==
               Ok(Moved(s, c, k + 1), Copied(m, s.channels[c], c, s.reload, k + 1))
  {
    hide Sm, Dm, Rs, Ts, Di, De, Dme, Nmif, Ae, Tm, Ie, Size, TidyChcr, Aligned, TransferOne, Copied, MustAbort, Left,
         Source, Dest, Ended, NoRequest;
    NotHalted(s, c, k, Waiting);
    NotHalted(s, c, k, Transferring);
    UnitStep(s, m, c, k, Transferring);
    var t := Pended(Midway(s, c, k, Waiting), i, true);
    assert Pended(t, i, false).requests == s.requests;
    assert Pended(t, i, false).(phase := Transferring) == Midway(s, c, k, Transferring);
    RsFits(s.channels[c].chcr);
  }

  // ---------- as many units as requests ----------

  /** The peripheral asks and the controller runs a cycle, n times. */
  ghost function Rounds(s: State, m: Mem, i: nat, n: nat): (o: Outcome)
    requires Resting(s)
    ensures o.Ok? ==> Resting(o.state)
  {
    if n == 0 then Ok(s, m)
    else
      match Rounds(s, m, i, n - 1)
      case Die => Die
      case Ok(t, u) =>
        StepKeeps(t, Asked(i));
        CycleRests(Ask(t, i), u);
        Cycle(Ask(t, i), u)
  }

  lemma NoRounds(s: State, m: Mem, i: nat)
    requires Resting(s)
    ensures Rounds(s, m, i, 0) == Ok(s, m)
  {
    hide Inv;
  }

  lemma FirstRound(s: State, m: Mem, c: nat, i: nat)
    requires Bound(s, c, i) && Chosen(s, c) && !Tm(s.channels[c].chcr) && FitsUnit(s, c, i, 0)
    ensures Resting(Ask(s, i)) && Cycle(Ask(s, i), m) == Ok(Moved(s, c, 1), Copied(m, s.channels[c], c, s.reload, 1))
  {
    hide Ready, Inv, Tm, Ie, Dme, Nmif, Ae, Left, Source, Dest, StepWaiting, Ended, WriteBytes, ReadBytes, Ask, Choose,
         NoRequest, Fits, Moved;
    StepKeeps(s, Asked(i));
    InvLive(s);
    ReadyCount(s.channels[c]);
    AskedIs(s, c, i, s);
    var t := Pended(s, i, true);
    FirstCycle(t, m, c);
    AskedKeepsChannels(s, c, i);
    assert Midway(t, c, 0, Waiting) == Pended(Midway(s, c, 0, Waiting), i, true);
    NoneCopied(m, s.channels[c], c, s.reload);
    ServeRequest(s, m, c, i, 0);
  }

  lemma AskedKeepsChannels(s: State, c: nat, i: nat)
    requires Bound(s, c, i)
    ensures var t := Pended(s, i, true); t.channels == s.channels && t.reload == s.reload
  {}

  /** After n requests, each followed by a cycle, exactly n units have moved; the last one ends the transfer. */
  lemma {:induction false} RequestedUnits(s: State, m: Mem, c: nat, i: nat, n: nat)
    requires Bound(s, c, i) && Chosen(s, c) && !Tm(s.channels[c].chcr) && 1 <= n <= s.channels[c].tcr
    requires forall k :: 0 <= k < n ==> FitsUnit(s, c, i, k)
    ensures Rounds(s, m, i, n) == Ok(Moved(s, c, n), Copied(m, s.channels[c], c, s.reload, n))
  {
    hide Ready, Inv, Tm, Ie, Dme, Nmif, Ae, Left, Source, Dest, StepWaiting, Ended, WriteBytes, ReadBytes, Ask, Choose,
         NoRequest, FitsUnit, Copied;
    InvLive(s);
    if n == 1 {
      NoRounds(s, m, i);
      FirstRound(s, m, c, i);
    } else {
      RequestedUnits(s, m, c, i, n - 1);
      assert Moved(s, c, n - 1) == Midway(s, c, n - 1, Waiting);
      AskedIs(s, c, i, Midway(s, c, n - 1, Waiting));
      ServeRequest(s, m, c, i, n - 1);
    }
  }

  /** Without a request a waiting channel waits on. */
  lemma IdleCycle(s: State, m: Mem)
    requires Resting(s) && s.phase == Waiting
    requires var rs := Rs(s.channels[s.picked].chcr);
             && rs != AUTO_REQUEST && !NoRequest(rs)
             && (RsFits(s.channels[s.picked].chcr); s.requests[rs as nat].registered && !s.requests[rs as nat].pending)
    ensures Cycle(s, m) == Ok(s, m)
  {
    hide Rs, NoRequest, TidyChcr;
  }

  /** So one request moves one unit, however many cycles follow. */
  lemma {:induction false} OneRequestOneUnit(s: State, m: Mem, c: nat, i: nat, n: nat)
    requires Bound(s, c, i) && Chosen(s, c) && !Tm(s.channels[c].chcr) && FitsUnit(s, c, i, 0) && 2 <= s.channels[c].tcr
    ensures Rounds(s, m, i, 1).Ok?
    ensures Cycles(Rounds(s, m, i, 1).state, Rounds(s, m, i, 1).mem, n) ==
            Ok(Moved(s, c, 1), Copied(m, s.channels[c], c, s.reload, 1))
  {
    hide Ready, Inv, Tm, Ie, Dme, Nmif, Ae, Left, Source, Dest, Ended, Ask, Choose, NoRequest, FitsUnit, Copied, Cycle,
         Rounds;
    RequestedUnits(s, m, c, i, 1);
    if n > 0 {
      OneRequestOneUnit(s, m, c, i, n - 1);
      WaitsOn(s, m, c, i);
    }
  }

  lemma WaitsOn(s: State, m: Mem, c: nat, i: nat)
    requires Bound(s, c, i) && !Tm(s.channels[c].chcr) && 2 <= s.channels[c].tcr && Resting(Moved(s, c, 1))
    ensures var u := Copied(m, s.channels[c], c, s.reload, 1); Cycle(Moved(s, c, 1), u) == Ok(Moved(s, c, 1), u)
  {
    hide Ready, Inv, Tm, Ie, Dme, Nmif, Ae, Left, Source, Dest, Ended, NoRequest, Copied, Cycle, Rs;
    InvLive(s);
    IdleCycle(Moved(s, c, 1), Copied(m, s.channels[c], c, s.reload, 1));
  }

  /** A whole block at the requests of a peripheral. */
  lemma RequestedBlock(s: State, m: Mem, c: nat, i: nat)
    requires Bound(s, c, i) && Chosen(s, c) && !Tm(s.channels[c].chcr) && Separate(m, s.channels[c], c, s.reload)
    requires forall k :: 0 <= k < s.channels[c].tcr ==> FitsUnit(s, c, i, k)
    ensures var ch := s.channels[c];
            var o := Rounds(s, m, i, ch.tcr);
            && o.Ok? && UnitsCopied(m, o.mem, ch, c, s.reload) && RestKept(m, o.mem, ch)
            && o.state == Moved(s, c, ch.tcr)
  {
    hide Source, Dest, Size, Copied, Rounds, Tm, Ended, Separate, UnitsCopied, RestKept, Ready, TidyChcr, FitsUnit,
         Moved;
    ReadyCount(s.channels[c]);
    RequestedUnits(s, m, c, i, s.channels[c].tcr);
    CopiedContents(m, s.channels[c], c, s.reload);
  }

  // ---------- over whole runs ----------

  /** Request i is pending. */
  function Held(s: State, i: nat): nat
    requires i < |s.requests|
  {
    if s.requests[i].pending then 1 else 0
  }

  /** By how much the count of a channel went down, in 32 bits. */
  function Down(before: nat, after: nat): nat
    requires before < WORD && after < WORD
  {
    if after <= before then before - after else before + WORD - after
  }

  /** A cycle serves request i. */
  ghost predicate Serves(s: State, e: Event, i: nat)
    requires Resting(s)
  {
    e.Clock? && 0 <= Served(s) && Rs(s.channels[Served(s)].chcr) as nat == i
  }

  /** The units an event moves at request i. */
  ghost function UnitsAt(s: State, e: Event, i: nat): nat
    requires Resting(s)
  {
    StepKeeps(s, e);
    if Serves(s, e, i) && Step(s, e).Some? then
      Down(s.channels[Served(s)].tcr, Step(s, e).value.channels[Served(s)].tcr)
    else 0
  }

  lemma TransferKeepsRequests(s: State, m: Mem)
    requires Live(s) && 0 <= s.picked < 4 && TransferOne(s, m).Ok?
    ensures TransferOne(s, m).state.requests == s.requests
  {
    hide PerformTransfer, Ts, Advanced, Wide, De, Ie, Tm, Nmif, Ae, Dme, Ended;
    PerformShape(s, m, s.picked);
  }

  lemma TransferOnce(s: State, m: Mem)
    requires Live(s) && 0 <= s.picked < 4 && StepTransferring(s, m).Ok?
    ensures var r := StepTransferring(s, m).state;
            && Live(r) && r.picked == s.picked && r.requests == s.requests
            && Down(s.channels[s.picked].tcr, r.channels[s.picked].tcr) <= 2
            && (!Tm(s.channels[s.picked].chcr) ==> Down(s.channels[s.picked].tcr, r.channels[s.picked].tcr) <= 1)
  {
    hide TransferOne, De, Nmif, Ae, Dme, Tm;
    if !MustAbort(s) {
      TransferLive(s, m);
      TransferKeepsRequests(s, m);
      var s1, m1 := TransferOne(s, m).state, TransferOne(s, m).mem;
      BurstOnly(s, m);
      if s1.phase == Transferring {
        TransferLive(s1, m1);
        TransferKeepsRequests(s1, m1);
      }
    }
  }

  /** Only a burst moves a second unit. */
  lemma BurstOnly(s: State, m: Mem)
    requires Live(s) && 0 <= s.picked < 4 && TransferOne(s, m).Ok?
    ensures TransferOne(s, m).state.phase == Transferring ==> Tm(s.channels[s.picked].chcr)
  {
    hide PerformTransfer, Advanced, De, Ie, Tm, Nmif, Ae, Dme, Ended, Ts;
    var c := s.picked;
    PerformShape(s, m, c);
    var t := PerformTransfer(s, m, c).state;
    AdvanceFits(s.channels[c]);
    assert Reloaded(t).channels[c].chcr == s.channels[c].chcr;
  }

  lemma WaitingBound(s: State, m: Mem, i: nat)
    requires Live(s) && 0 <= s.picked < 4 && i < 32 && i != 31 && StepWaiting(s, m).Ok?
    ensures var r := StepWaiting(s, m).state;
            && Live(r) && Held(r, i) <= Held(s, i)
            && (Rs(s.channels[s.picked].chcr) as nat == i ==>
                  var units := Down(s.channels[s.picked].tcr, r.channels[s.picked].tcr);
                  && units + 2 * Held(r, i) <= 2 * Held(s, i)
                  && (!Tm(s.channels[s.picked].chcr) ==> units + Held(r, i) <= Held(s, i)))
  {
    hide StepTransferring, Rs, NoRequest, Tm;
    var ch := s.channels[s.picked];
    RsFits(ch.chcr);
    RsSmall(ch.chcr);
    SourceNumber(Rs(ch.chcr));
    var rs := Rs(ch.chcr);
    if rs == AUTO_REQUEST {
      TransferOnce(s.(phase := Transferring), m);
    } else {
      var r := s.requests[rs as nat];
      var s1 := s.(requests := s.requests[rs as nat := r.(pending := false)]);
      if r.registered && r.pending && StepWaiting(s, m) == StepTransferring(s1.(phase := Transferring), m) {
        TransferOnce(s1.(phase := Transferring), m);
      }
    }
  }

  lemma CycleBound(s: State, m: Mem, i: nat)
    requires Resting(s) && i < 32 && i != 31 && Cycle(s, m).Ok?
    ensures var r := Cycle(s, m).state;
            && Live(r) && Held(r, i) <= Held(s, i)
            && (Serves(s, Clock(m), i) ==>
                  var units := Down(s.channels[Served(s)].tcr, r.channels[Served(s)].tcr);
                  && units + 2 * Held(r, i) <= 2 * Held(s, i)
                  && (!Tm(s.channels[Served(s)].chcr) ==> units + Held(r, i) <= Held(s, i)))
  {
    hide StepWaiting, De, Te, Nmif, Ae, Dme, TidyChcr, Rs, Tm;
    if s.phase == Waiting {
      WaitingBound(s, m, i);
    } else if Served(s) >= 0 {
      WaitingBound(Selected(s, Served(s)), m, i);
    }
  }

  /** Is the event the peripheral asking for i? */
  function Asks(e: Event, i: nat): nat { if e == Asked(i) then 1 else 0 }

  lemma EventBound(s: State, e: Event, i: nat)
    requires Resting(s) && i < 32 && i != 31 && Step(s, e).Some?
    ensures Resting(Step(s, e).value) && |Step(s, e).value.requests| == 32
    ensures UnitsAt(s, e, i) + 2 * Held(Step(s, e).value, i) <= 2 * (Asks(e, i) + Held(s, i))
    ensures !(Serves(s, e, i) && Tm(s.channels[Served(s)].chcr)) ==>
              UnitsAt(s, e, i) + Held(Step(s, e).value, i) <= Asks(e, i) + Held(s, i)
  {
    hide Inv, Cycle, Write16, Dmac.Write32, NoRequest, Served, Down, Rs, Tm;
    InvLive(s);
    StepKeeps(s, e);
    match e
    case Clock(m) => CycleBound(s, m, i);
    case Word(offset, v) => WritesKeepRequests(s, offset, v, 0);
    case Long(offset, v) => WritesKeepRequests(s, offset, 0, v);
    case _ =>
  }

  lemma WritesKeepRequests(s: State, offset: nat, w: bv16, l: bv32)
    requires |s.channels| == 4
    ensures Write16(s, offset, w).requests == s.requests && Dmac.Write32(s, offset, l).requests == s.requests
  {
    hide ChcrValue, De, MergeNat, MergeWord, Unsigned;
  }

  /** All units moved at request i over a run, and how often it was asked for. */
  ghost function Units(s: State, events: seq<Event>, i: nat): nat
    requires Resting(s)
    decreases |events|
  {
    if events == [] then 0
    else
      StepKeeps(s, events[0]);
      UnitsAt(s, events[0], i) +
      match Step(s, events[0]) case None => 0 case Some(t) => Units(t, events[1..], i)
  }

  function AllAsks(events: seq<Event>, i: nat): nat {
    if events == [] then 0 else Asks(events[0], i) + AllAsks(events[1..], i)
  }

  /** No channel in burst mode is served at request i. */
  ghost predicate NeverBurst(s: State, events: seq<Event>, i: nat)
    requires Resting(s)
    decreases |events|
  {
    events != [] ==>
      && !(Serves(s, events[0], i) && Tm(s.channels[Served(s)].chcr))
      && (StepKeeps(s, events[0]);
          Step(s, events[0]).Some? ==> NeverBurst(Step(s, events[0]).value, events[1..], i))
  }

  /**
   Over every run the units moved at request i are at most the times it was
   asked for, counting one that was pending at the start, and twice as many in
   burst mode.
  */
  lemma {:induction false} UnitsNeedRequests(s: State, events: seq<Event>, i: nat)
    requires Resting(s) && i < 32 && i != 31
    ensures |s.requests| == 32
    ensures Units(s, events, i) <= 2 * (AllAsks(events, i) + Held(s, i))
    ensures NeverBurst(s, events, i) ==> Units(s, events, i) <= AllAsks(events, i) + Held(s, i)
    decreases |events|
  {
    hide Inv, Step, Serves, Tm, UnitsAt, Asks, Held;
    InvLive(s);
    if events != [] {
      StepKeeps(s, events[0]);
      NoneWithoutStep(s, events[0], i);
      if Step(s, events[0]).Some? {
        EventBound(s, events[0], i);
        UnitsNeedRequests(Step(s, events[0]).value, events[1..], i);
      }
    }
  }

  lemma NoneWithoutStep(s: State, e: Event, i: nat)
    requires Resting(s)
    ensures Live(s) && Picked(s) && (Step(s, e).None? ==> UnitsAt(s, e, i) == 0)
  {
    hide Inv, Step;
    InvLive(s);
  }
}
