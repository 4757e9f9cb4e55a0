/**
 One unit of a transfer of the direct memory access controller and the layout
 of its registers, stated on bytes and numbers.
*/
module DmacUnit {
  import opened Options
  import opened Memory
  import opened Dmac

  // ---------- the control register ----------

  /** The fields of CHCR, by their places. */
  lemma ChcrLayout(v: bv32)
    ensures De(v) <==> v % 2 == 1
    ensures Te(v) <==> v / 2 % 2 == 1
    ensures Ie(v) <==> v / 4 % 2 == 1
    ensures Tm(v) <==> v / 8 % 2 == 1
    ensures Ts(v) == v / 0x10 % 4
    ensures Dm(v) == v / 0x100 % 4
    ensures Sm(v) == v / 0x1000 % 4
    ensures Rs(v) == v / 0x1_0000 % 32
    ensures Ro(v) <==> v / 0x100_0000 % 2 == 1
    ensures Di(v) <==> v / 0x1000_0000 % 2 == 1
  {}

  /** The operation register: master enable, NMI and address error from the lowest bit on. */
  lemma DmaorLayout(v: bv16)
    ensures Dme(v) <==> v % 2 == 1
    ensures Nmif(v) <==> v / 2 % 2 == 1
    ensures Ae(v) <==> v / 4 % 2 == 1
  {}

  /** Raising the address error, or an NMI, sets its flag and no other. */
  lemma Flags(v: bv16)
    ensures Ae(Flagged(v)) && Nmif(Flagged(v)) == Nmif(v) && Dme(Flagged(v)) == Dme(v)
    ensures Nmif(v | 2) && Ae(v | 2) == Ae(v) && Dme(v | 2) == Dme(v)
  {}

  // ---------- one unit ----------

  /** The bytes of a unit, by its size code. */
  function Bytes(ts: bv32): nat { if ts == 0 then 1 else if ts == 1 then 2 else 4 }

  /** A register after a unit, by its mode: up, down or fixed, in 32 bits. */
  predicate Steps(before: nat, after: nat, mode: bv32, step: nat) {
    if mode == 1 then after == (if before + step < WORD then before + step else before + step - WORD)
    else if mode == 2 then after == (if before >= step then before - step else before + WORD - step)
    else after == before
  }

  lemma AdvanceSteps(a: nat, mode: bv32, step: nat)
    requires a < WORD && step <= 8
    ensures Steps(a, Advance(a, mode, step), mode, step)
  {}

  /**
   A unit: if the source is not aligned to its size, nothing is copied, the
   address error is flagged and signalled; else its bytes go from the source,
   in indirect mode the address found there, to the destination.  In both cases
   the registers move on by their modes and the count goes down by one.
  */
  lemma UnitMoves(s: State, m: Mem, c: nat)
    requires Live(s) && c < 4 && Ts(s.channels[c].chcr) != 3
    ensures var ch := s.channels[c];
            var size := Bytes(Ts(ch.chcr));
            var src := if Di(ch.chcr) then Memory.Read32(m, ch.sar) as nat else ch.sar;
            var o := PerformTransfer(s, m, c);
            && o.Ok? && |o.state.channels| == 4
            && (if !Aligned(src, size)
                then o.mem == m && o.state.dmaor == Flagged(s.dmaor) && o.state.signals == s.signals + [AddressError]
                else && o.mem == WriteBytes(m, ch.dar, ReadBytes(m, src, size), true)
                     && o.state.dmaor == s.dmaor && o.state.signals == s.signals)
            && var after := o.state.channels[c];
            && Steps(ch.sar, after.sar, Sm(ch.chcr), if Di(ch.chcr) then 4 else size)
            && Steps(ch.dar, after.dar, Dm(ch.chcr), size)
            && after.tcr == (if ch.tcr == 0 then WORD - 1 else ch.tcr - 1) && after.chcr == ch.chcr
            && (forall d :: 0 <= d < 4 && d != c ==> o.state.channels[d] == s.channels[d])
            && o.state == s.(channels := o.state.channels, dmaor := o.state.dmaor, signals := o.state.signals)
  {
    hide Ts, Di, Sm, Dm, Flagged, WriteBytes, ReadBytes, Advance, Memory.Read32, Steps;
    var ch := s.channels[c];
    TransferSizes(Ts(ch.chcr));
    SizeIsBytes(ch.chcr);
    AdvanceSteps(ch.sar, Sm(ch.chcr), if Di(ch.chcr) then 4 else Size(ch.chcr));
    AdvanceSteps(ch.dar, Dm(ch.chcr), Size(ch.chcr));
  }

  lemma TransferSizes(ts: bv32)
    ensures Bytes(ts) == 1 || Bytes(ts) == 2 || Bytes(ts) == 4
  {}

  lemma SizeIsBytes(v: bv32)
    requires Ts(v) != 3
    ensures Size(v) == Bytes(Ts(v))
  {
    SizeCodes(v);
    hide Ts;
  }

  lemma SizeCodes(v: bv32)
    ensures Ts(v) == 0 || Ts(v) == 1 || Ts(v) == 2 || Ts(v) == 3
  {}

  /**
   What follows a unit: with NMI or address error flagged, the controller off
   or the channel disabled, the transfer is given up uncounted and unfinished;
   else it is counted, and ends when the count is nought.
  */
  lemma AfterUnit(s: State)
    requires Live(s) && 0 <= s.picked < 4
    ensures var r, ch := Concluded(s), s.channels[s.picked];
            var off := Nmif(s.dmaor) || Ae(s.dmaor) || !Dme(s.dmaor) || !De(ch.chcr);
            && r.dmaor == s.dmaor && r.requests == s.requests && r.picked == s.picked
            && (off ==> r == s.(phase := Initial, reload := if s.picked == 2 then 4 else s.reload))
            && (!off ==> r.transfers == s.transfers + 1)
            && (!off && ch.tcr != 0 ==>
                  r == s.(transfers := r.transfers, phase := if Tm(ch.chcr) then Transferring else Waiting))
            && (!off && ch.tcr == 0 ==>
                  && r.phase == Initial && r.reload == (if s.picked == 2 then 4 else s.reload)
                  && r.channels == s.channels[s.picked := ch.(chcr := Ended(ch.chcr))]
                  && r.signals == s.signals + (if Ie(ch.chcr) then [TransferEnd(s.picked)] else []))
  {
    hide De, Ie, Tm, Nmif, Ae, Dme, Ended;
  }

  /** Ending a transfer sets TE and nothing else. */
  lemma EndedSetsTe(v: bv32)
    ensures Te(Ended(v)) && De(Ended(v)) == De(v) && Rs(Ended(v)) == Rs(v) && Ts(Ended(v)) == Ts(v)
    ensures Sm(Ended(v)) == Sm(v) && Dm(Ended(v)) == Dm(v) && Ie(Ended(v)) == Ie(v) && Tm(Ended(v)) == Tm(v)
    ensures Ro(Ended(v)) == Ro(v) && Di(Ended(v)) == Di(v)
  {}

  // ---------- registers written by halves ----------

  function Half(ch: Channel, reg: nat, v: bv16, upper: bool): Channel {
    match reg
    case 0 => ch.(sar := MergeNat(ch.sar, v, upper))
    case 4 => ch.(dar := MergeNat(ch.dar, v, upper))
    case _ => ch.(tcr := MergeNat(ch.tcr, v, upper) % 0x100_0000)
  }

  lemma HalfWritten(s: State, c: nat, reg: nat, v: bv16, upper: bool)
    requires |s.channels| == 4 && c < 4 && (reg == 0 || reg == 4 || reg == 8)
    ensures Write16(s, 0x10 + 16 * c + reg + (if upper then 0 else 2), v) ==
            s.(channels := s.channels[c := Half(s.channels[c], reg, v, upper)])
  {
    hide MergeNat, ChcrValue, MergeWord, WriteChcr;
    Place(c, reg + if upper then 0 else 2);
  }

  function Long(ch: Channel, reg: nat, v: nat): Channel {
    match reg case 0 => ch.(sar := v) case 4 => ch.(dar := v) case _ => ch.(tcr := v % 0x100_0000)
  }

  lemma HalvesJoin(ch: Channel, reg: nat, hi: bv16, lo: bv16)
    requires Wide(ch) && ch.tcr < 0x100_0000
    ensures Half(Half(ch, reg, hi, true), reg, lo, false) == Long(ch, reg, hi as nat * 0x1_0000 + lo as nat)
  {
    hide MergeNat;
    Merge(ch.sar, hi, lo);
    Merge(ch.dar, hi, lo);
    MergeCount(ch.tcr, hi, lo);
  }

  /** Two 16-bit writes, upper half first, make one 32-bit write of SAR, DAR or TCR. */
  lemma HalvesMakeLong(s: State, c: nat, reg: nat, hi: bv16, lo: bv16)
    requires Live(s) && c < 4 && (reg == 0 || reg == 4 || reg == 8) && s.channels[c].tcr < 0x100_0000
    ensures var at := 0x10 + 16 * c + reg;
            Write16(Write16(s, at, hi), at + 2, lo) ==
            s.(channels := s.channels[c := Long(s.channels[c], reg, hi as nat * 0x1_0000 + lo as nat)])
  {
    hide Write16, Half, Long;
    HalfWritten(s, c, reg, hi, true);
    var t := s.(channels := s.channels[c := Half(s.channels[c], reg, hi, true)]);
    HalfWritten(t, c, reg, lo, false);
    HalvesJoin(s.channels[c], reg, hi, lo);
    assert t.channels[c := Long(s.channels[c], reg, hi as nat * 0x1_0000 + lo as nat)] ==
           s.channels[c := Long(s.channels[c], reg, hi as nat * 0x1_0000 + lo as nat)];
  }

  lemma Place(c: nat, reg: nat)
    requires reg < 16
    ensures (16 * c + reg) / 16 == c && (16 * c + reg) % 16 == reg
  {}

  lemma Merge(x: nat, hi: bv16, lo: bv16)
    requires x < WORD
    ensures MergeNat(MergeNat(x, hi, true), lo, false) == hi as nat * 0x1_0000 + lo as nat
  {
    var h, l := hi as nat, lo as nat;
    var y := x % 0x1_0000 + h * 0x1_0000;
    assert y / 0x1_0000 == h;
  }

  lemma MergeCount(x: nat, hi: bv16, lo: bv16)
    requires x < 0x100_0000
    ensures MergeNat(MergeNat(x, hi, true) % 0x100_0000, lo, false) % 0x100_0000 ==
            (hi as nat * 0x1_0000 + lo as nat) % 0x100_0000
  {
    CountHalves(x, hi as nat, lo as nat);
  }

  lemma CountHalves(x: nat, h: nat, l: nat)
    requires h < 0x1_0000 && l < 0x1_0000
    ensures ((x % 0x1_0000 + h * 0x1_0000) % 0x100_0000 / 0x1_0000 * 0x1_0000 + l) % 0x100_0000 ==
            (h * 0x1_0000 + l) % 0x100_0000
  {
    var q, r, low := h / 0x100, h % 0x100, x % 0x1_0000;
    CountRest(low + h * 0x1_0000, q, r * 0x1_0000 + low);
    CountRest(h * 0x1_0000 + l, q, r * 0x1_0000 + l);
    CountRest(r * 0x1_0000 + l, 0, r * 0x1_0000 + l);
    assert (r * 0x1_0000 + low) / 0x1_0000 == r;
  }

  lemma CountRest(x: nat, q: nat, r: nat)
    requires x == 0x100_0000 * q + r && r < 0x100_0000
    ensures x % 0x100_0000 == r
  {}

  /** A half of CHCR replaces that half of the value its write rules see. */
  lemma MergedWord(current: bv32, v: bv16)
    ensures MergeWord(current, v, true) == (v as bv32) * 0x1_0000 + current % 0x1_0000
    ensures MergeWord(current, v, false) == current / 0x1_0000 * 0x1_0000 + v as bv32
  {}
}
