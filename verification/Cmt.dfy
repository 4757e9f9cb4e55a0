/**
 The SH-2E compare-match timer (hardware manual REJ09B0045-0200H, page 445
 onwards): a prescaler loop that counts and matches, and its closed form.
*/
module Cmt {
  const COUNTS: nat := 65536

  /** CMCSR is kept by its fields; `select` is CKS1 and CKS0, `prescaler` the cycles not yet counted. */
  datatype Channel = Channel(
    select: nat,
    interruptEnable: bool,
    flag: bool,
    cmcnt: nat,
    cmcor: nat,
    prescaler: nat,
    interrupts: nat)

  predicate Fits(ch: Channel) { ch.select < 4 && ch.cmcnt < COUNTS && ch.cmcor < COUNTS }

  function Period(select: nat): nat {
    if select == 0 then 8 else if select == 1 then 32 else if select == 2 then 128 else 512
  }

  /** One count, with its 16-bit wrap-around. */
  function Count(ch: Channel): Channel {
    var c := (ch.cmcnt + 1) % COUNTS;
    if c == ch.cmcor then
      ch.(flag := true, cmcnt := 0, interrupts := ch.interrupts + (if ch.interruptEnable then 1 else 0))
    else ch.(cmcnt := c)
  }

  function Counts(ch: Channel, n: nat): Channel {
    if n == 0 then ch else Count(Counts(ch, n - 1))
  }

  /** What the loop computes: as many counts as there are whole periods, the rest kept for later. */
  function Process(ch: Channel, cycles: nat): Channel {
    var total := ch.prescaler + cycles;
    Counts(ch, Quotient(total, ch.select)).(prescaler := Rest(total, ch.select))
  }

  function Quotient(total: nat, select: nat): nat {
    if select == 0 then total / 8
    else if select == 1 then total / 32
    else if select == 2 then total / 128
    else total / 512
  }

  function Rest(total: nat, select: nat): nat {
    if select == 0 then total % 8
    else if select == 1 then total % 32
    else if select == 2 then total % 128
    else total % 512
  }

  // ---------- processing in pieces ----------

  lemma {:induction false} CountsKeep(ch: Channel, n: nat)
    ensures var r := Counts(ch, n);
            r.select == ch.select && r.interruptEnable == ch.interruptEnable && r.cmcor == ch.cmcor &&
            r.prescaler == ch.prescaler
    ensures Fits(ch) ==> Fits(Counts(ch, n))
  {
    if n > 0 { CountsKeep(ch, n - 1); }
  }

  lemma {:induction false} CountsAdd(ch: Channel, a: nat, b: nat)
    ensures Counts(Counts(ch, a), b) == Counts(ch, a + b)
  {
    if b > 0 { CountsAdd(ch, a, b - 1); }
  }

  lemma {:induction false} CountsIgnorePrescaler(ch: Channel, p: nat, n: nat)
    ensures Counts(ch.(prescaler := p), n) == Counts(ch, n).(prescaler := p)
  {
    if n > 0 { CountsIgnorePrescaler(ch, p, n - 1); }
  }

  lemma PeriodsAdd(x: nat, b: nat, select: nat)
    ensures Quotient(x, select) + Quotient(Rest(x, select) + b, select) == Quotient(x + b, select)
    ensures Rest(Rest(x, select) + b, select) == Rest(x + b, select)
  {}

  /** With the registers left alone, a cycles and then b cycles are a + b cycles. */
  lemma ProcessAdds(ch: Channel, a: nat, b: nat)
    ensures Process(Process(ch, a), b) == Process(ch, a + b)
  {
    hide Counts, Quotient, Rest;
    var x := ch.prescaler + a;
    var n, p := Quotient(x, ch.select), Rest(x, ch.select);
    CountsKeep(ch, n);
    var mid := Process(ch, a);
    var k := Quotient(p + b, ch.select);
    CountsIgnorePrescaler(Counts(ch, n), p, k);
    CountsAdd(ch, n, k);
    PeriodsAdd(x, b, ch.select);
  }

  // ---------- the closed form ----------

  /** How many counts make a match; a constant of 0 matches at the wrap-around. */
  function Cycle(ch: Channel): nat { if ch.cmcor == 0 then COUNTS else ch.cmcor }

  /** A channel after some matches, at this count. */
  function Matched(ch: Channel, matches: nat, cmcnt: nat): Channel {
    ch.(flag := ch.flag || matches > 0, cmcnt := cmcnt,
        interrupts := ch.interrupts + (if ch.interruptEnable then matches else 0))
  }

  function Div(x: nat, c: nat): nat
    requires c > 0
  {
    x / c
  }

  function Mod(x: nat, c: nat): nat
    requires c > 0
  {
    x % c
  }

  lemma Multiples(d: int, c: nat)
    ensures d >= 1 ==> d * c >= c
    ensures d <= -1 ==> d * c + c <= 0
  {}

  lemma DivMod(x: nat, c: nat, q: nat, r: nat)
    requires c > 0 && x == q * c + r && r < c
    ensures Div(x, c) == q && Mod(x, c) == r
  {
    var d := x / c - q;
    assert x == c * (x / c) + x % c;
    assert d * c == r - x % c;
    Multiples(d, c);
  }

  /** Counting from below the constant, in quotient-and-rest form. */
  lemma {:induction false} CountsFromBelow(ch: Channel, n: nat) returns (q: nat, r: nat)
    requires Fits(ch) && ch.cmcnt < Cycle(ch)
    ensures ch.cmcnt + n == q * Cycle(ch) + r && r < Cycle(ch)
    ensures Counts(ch, n) == Matched(ch, q, r)
  {
    if n == 0 {
      q, r := 0, ch.cmcnt;
    } else {
      q, r := CountsFromBelow(ch, n - 1);
      if r + 1 == Cycle(ch) {
        assert (q + 1) * Cycle(ch) == q * Cycle(ch) + Cycle(ch);
        q, r := q + 1, 0;
      } else {
        r := r + 1;
      }
    }
  }

  /** n counts from below the constant: (CMCNT + n) div c matches, and CMCNT becomes (CMCNT + n) mod c. */
  lemma ClosedForm(ch: Channel, n: nat)
    requires Fits(ch) && ch.cmcnt < Cycle(ch)
    ensures Counts(ch, n) == Matched(ch, Div(ch.cmcnt + n, Cycle(ch)), Mod(ch.cmcnt + n, Cycle(ch)))
  {
    hide Counts, Matched, Div, Mod;
    var q, r := CountsFromBelow(ch, n);
    DivMod(ch.cmcnt + n, Cycle(ch), q, r);
  }

  lemma {:induction false} CountsUp(ch: Channel, n: nat)
    requires Fits(ch) && ch.cmcnt >= Cycle(ch) && ch.cmcnt + n <= COUNTS
    ensures Counts(ch, n) == ch.(cmcnt := (ch.cmcnt + n) % COUNTS)
  {
    if n > 0 { CountsUp(ch, n - 1); }
  }

  /** From the constant or above it the counter first has to wrap around. */
  lemma ClosedFormAbove(ch: Channel, n: nat)
    requires Fits(ch) && ch.cmcnt >= Cycle(ch)
    ensures var k := COUNTS - ch.cmcnt;
            Counts(ch, n) ==
            if n < k then ch.(cmcnt := ch.cmcnt + n)
            else Matched(ch, Div(n - k, Cycle(ch)), Mod(n - k, Cycle(ch)))
  {
    hide Counts, Matched, Div, Mod;
    var k := COUNTS - ch.cmcnt;
    if n < k {
      CountsUp(ch, n);
    } else {
      CountsUp(ch, k);
      CountsAdd(ch, k, n - k);
      var zero := ch.(cmcnt := 0);
      ClosedForm(zero, n - k);
      MatchedOver(ch, Div(n - k, Cycle(ch)), Mod(n - k, Cycle(ch)));
    }
  }

  lemma MatchedOver(ch: Channel, q: nat, r: nat)
    ensures Matched(ch.(cmcnt := 0), q, r) == Matched(ch, q, r)
  {}

  /** A batch of cycles as plain division: by the period, then by the constant. */
  lemma ProcessClosedForm(ch: Channel, cycles: nat)
    requires Fits(ch) && ch.cmcnt < Cycle(ch)
    ensures var total := ch.prescaler + cycles;
            var n := Div(total, Period(ch.select));
            Process(ch, cycles) ==
            Matched(ch, Div(ch.cmcnt + n, Cycle(ch)), Mod(ch.cmcnt + n, Cycle(ch)))
              .(prescaler := Mod(total, Period(ch.select)))
  {
    var total := ch.prescaler + cycles;
    assert Quotient(total, ch.select) == Div(total, Period(ch.select));
    assert Rest(total, ch.select) == Mod(total, Period(ch.select));
    ClosedForm(ch, Quotient(total, ch.select));
  }

  // ---------- the device ----------

  datatype Timer = Timer(start0: bool, start1: bool, channel0: Channel, channel1: Channel)

  function Advance(t: Timer, cycles: nat): Timer {
    t.(channel0 := if t.start0 then Process(t.channel0, cycles) else t.channel0,
       channel1 := if t.start1 then Process(t.channel1, cycles) else t.channel1)
  }

  /** How the cycles are handed out makes no difference to either channel. */
  lemma {:induction false} AdvanceAnyhow(t: Timer, pieces: seq<nat>)
    ensures AdvanceAll(t, pieces) == if pieces == [] then t else Advance(t, Sum(pieces))
  {
    hide Process;
    if |pieces| > 0 {
      var rest := pieces[..|pieces| - 1];
      var last := pieces[|pieces| - 1];
      AdvanceAnyhow(t, rest);
      if rest != [] {
        ProcessAdds(t.channel0, Sum(rest), last);
        ProcessAdds(t.channel1, Sum(rest), last);
      }
    }
  }

  function Sum(pieces: seq<nat>): nat {
    if pieces == [] then 0 else Sum(pieces[..|pieces| - 1]) + pieces[|pieces| - 1]
  }

  function AdvanceAll(t: Timer, pieces: seq<nat>): Timer {
    if pieces == [] then t else Advance(AdvanceAll(t, pieces[..|pieces| - 1]), pieces[|pieces| - 1])
  }

  // ---------- the loop ----------

  /** The channel as the simulator keeps it, updated by its loop. */
  class Counter {
    var select: nat
    var interruptEnable: bool
    var flag: bool
    var cmcnt: nat
    var cmcor: nat
    var prescaler: nat
    var interrupts: nat

    ghost function View(): Channel
      reads this
    {
      Channel(select, interruptEnable, flag, cmcnt, cmcor, prescaler, interrupts)
    }

    constructor ()
      ensures View() == Channel(0, false, false, 0, 0xFFFF, 0, 0) && Fits(View())
    {
      select, interruptEnable, flag, cmcnt, cmcor, prescaler, interrupts := 0, false, false, 0, 0xFFFF, 0, 0;
    }

    /** `sh2e_cmt_cmcsr_reg_write`: the flag can be cleared, never set. */
    method WriteControl(clock: nat, enable: bool, keepFlag: bool)
      requires clock < 4
      modifies this`select, this`interruptEnable, this`flag
      ensures View() == old(View()).(select := clock, interruptEnable := enable, flag := old(flag) && keepFlag)
    {
      select, interruptEnable := clock, enable;
      if !keepFlag { flag := false; }
    }

    method CountOnce()
      modifies this`flag, this`cmcnt, this`interrupts
      ensures View() == Count(old(View()))
    {
      cmcnt := (cmcnt + 1) % COUNTS;
      if cmcnt == cmcor {
        flag := true;
        cmcnt := 0;
        if interruptEnable {
          interrupts := interrupts + 1;
        }
      }
    }

    /** `update_channel_counter` */
    method Update(cycles: nat)
      requires Fits(View())
      modifies this
      ensures View() == Process(old(View()), cycles) && Fits(View())
    {
      hide Fits, Quotient, Rest, Count;
      ghost var was := View();
      FitsSelect(was);
      var period := Period(select);
      prescaler := prescaler + cycles;
      ghost var total, n := prescaler, 0;
      while prescaler >= period
        invariant View() == Counts(was, n).(prescaler := prescaler) && select == was.select
        invariant n + Quotient(prescaler, select) == Quotient(total, select)
        invariant Rest(prescaler, select) == Rest(total, select)
      {
        PeriodOff(prescaler, select);
        CountsIgnorePrescaler(was, prescaler - period, n);
        CountsIgnorePrescaler(was, prescaler - period, n + 1);
        CountsKeep(was, n + 1);
        prescaler := prescaler - period;
        CountOnce();
        n := n + 1;
      }
      NoPeriodLeft(prescaler, select);
      CountsFit(was, n, prescaler);
    }
  }

  lemma FitsSelect(ch: Channel)
    requires Fits(ch)
    ensures ch.select < 4
  {}

  lemma CountsFit(ch: Channel, n: nat, p: nat)
    requires Fits(ch)
    ensures Fits(Counts(ch, n).(prescaler := p))
  {
    hide Counts;
    CountsKeep(ch, n);
  }

  lemma PeriodOff(x: nat, select: nat)
    requires select < 4
    ensures var period := Period(select);
            x >= period ==>
              Quotient(x, select) == Quotient(x - period, select) + 1 && Rest(x, select) == Rest(x - period, select)
  {}

  lemma NoPeriodLeft(x: nat, select: nat)
    requires select < 4
    ensures x < Period(select) ==> Quotient(x, select) == 0 && Rest(x, select) == x
  {}

  /** By division: so many counts, so many matches, and the rests. */
  predicate Counted(ch: Channel, r: Channel, cycles: nat, counts: nat, matches: nat) {
    var period := if ch.select == 0 then 8 else if ch.select == 1 then 32 else if ch.select == 2 then 128 else 512;
    var constant := if ch.cmcor == 0 then 65536 else ch.cmcor;
    && ch.prescaler + cycles == counts * period + r.prescaler && r.prescaler < period
    && ch.cmcnt + counts == matches * constant + r.cmcnt && r.cmcnt < constant
    && r == ch.(prescaler := r.prescaler, cmcnt := r.cmcnt, flag := ch.flag || matches > 0,
                interrupts := ch.interrupts + (if ch.interruptEnable then matches else 0))
  }

  function CountsIn(ch: Channel, cycles: nat): nat { Div(ch.prescaler + cycles, Period(ch.select)) }

  function MatchesIn(ch: Channel, cycles: nat): nat { Div(ch.cmcnt + CountsIn(ch, cycles), Cycle(ch)) }

  lemma ProcessCounts(ch: Channel, cycles: nat)
    requires Fits(ch) && ch.cmcnt < Cycle(ch)
    ensures Counted(ch, Process(ch, cycles), cycles, CountsIn(ch, cycles), MatchesIn(ch, cycles))
  {
    hide Process, Div, Mod;
    ProcessClosedForm(ch, cycles);
    Divided(ch.prescaler + cycles, Period(ch.select));
    Divided(ch.cmcnt + CountsIn(ch, cycles), Cycle(ch));
  }

  lemma Divided(x: nat, c: nat)
    requires c > 0
    ensures x == Div(x, c) * c + Mod(x, c) && Mod(x, c) < c
  {}

  /** Whether a channel runs is for its own start bit to say; a running one counts by its clock and constant. */
  lemma AdvanceCounts(t: Timer, cycles: nat)
    requires Fits(t.channel0) && t.channel0.cmcnt < Cycle(t.channel0)
    requires Fits(t.channel1) && t.channel1.cmcnt < Cycle(t.channel1)
    ensures var r, a, b := Advance(t, cycles), t.channel0, t.channel1;
            && r.start0 == t.start0 && r.start1 == t.start1
            && (if t.start0 then Counted(a, r.channel0, cycles, CountsIn(a, cycles), MatchesIn(a, cycles))
                else r.channel0 == a)
            && (if t.start1 then Counted(b, r.channel1, cycles, CountsIn(b, cycles), MatchesIn(b, cycles))
                else r.channel1 == b)
  {
    hide Process, Counted, CountsIn, MatchesIn;
    ProcessCounts(t.channel0, cycles);
    ProcessCounts(t.channel1, cycles);
  }
}
