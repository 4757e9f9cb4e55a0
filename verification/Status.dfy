/**
 The status register of the RV32 processor: its fields, and what traps and
 returns do to each of its bits.
*/
module Status {
  import opened Bits

  datatype Priv = U | S | M

  function Level(p: Priv): nat { match p case U => 0 case S => 1 case M => 3 }

  predicate Mie(w: bv32) { w & 0x8 != 0 }
  predicate Mpie(w: bv32) { w & 0x80 != 0 }
  predicate Sie(w: bv32) { w & 0x2 != 0 }
  predicate Spie(w: bv32) { w & 0x20 != 0 }
  function Mpp(w: bv32): bv32 { (w >> 11) & 3 }
  predicate Spp(w: bv32) { w & 0x100 != 0 }
  predicate Tsr(w: bv32) { w & 0x40_0000 != 0 }
  predicate Tw(w: bv32) { w & 0x20_0000 != 0 }
  predicate Mprv(w: bv32) { w & 0x2_0000 != 0 }

  predicate GoodMpp(w: bv32) { Mpp(w) != 2 }

  /** MPIE = MIE, MIE = 0, MPP = the mode that trapped. */
  function EnterM(w: bv32, p: Priv): bv32 {
    var a := if Mie(w) then Or(w, 0x80) else Except(w, 0x80);
    var b := Except(Except(a, 0x8), 0x1800);
    match p case U => b case S => Or(b, 0x800) case M => Or(b, 0x1800)
  }

  /** SPIE = SIE, SIE = 0, SPP = the low bit of the mode that trapped. */
  function EnterS(w: bv32, p: Priv): bv32 {
    var a := if Sie(w) then Or(w, 0x20) else Except(w, 0x20);
    var b := Except(Except(a, 0x2), 0x100);
    match p case U => b case S => Or(b, 0x100) case M => Or(b, 0x100)
  }

  function LeaveM(w: bv32): bv32 {
    var a := if Mpie(w) then Or(w, 0x8) else Except(w, 0x8);
    var b := Except(Or(a, 0x80), 0x1800);
    if Mpp(w) == 3 then b else Except(b, 0x2_0000)
  }

  function LeaveS(w: bv32): bv32 {
    var a := if Spie(w) then Or(w, 0x2) else Except(w, 0x2);
    Except(Except(Or(a, 0x20), 0x100), 0x2_0000)
  }

  /** MPP never holds the reserved value. */
  function PrivOf(bits: bv32): Priv { if bits == 0 then U else if bits == 1 then S else M }

  // ---------- where the fields are ----------

  lemma Fields(w: bv32)
    ensures Mie(w) <==> Bit(w, 3)
    ensures Mpie(w) <==> Bit(w, 7)
    ensures Sie(w) <==> Bit(w, 1)
    ensures Spie(w) <==> Bit(w, 5)
    ensures Spp(w) <==> Bit(w, 8)
    ensures Mprv(w) <==> Bit(w, 17)
    ensures Tw(w) <==> Bit(w, 21)
    ensures Tsr(w) <==> Bit(w, 22)
  {
    hide Bit;
    BitMask(w, 1);
    BitMask(w, 3);
    BitMask(w, 5);
    BitMask(w, 7);
    BitMask(w, 8);
    BitMask(w, 17);
    BitMask(w, 21);
    BitMask(w, 22);
  }

  lemma PreviousMode(w: bv32)
    ensures Mpp(w) == 0 <==> !Bit(w, 11) && !Bit(w, 12)
    ensures Mpp(w) == 1 <==> Bit(w, 11) && !Bit(w, 12)
    ensures Mpp(w) == 3 <==> Bit(w, 11) && Bit(w, 12)
  {
    hide Bit;
    BitMask(w, 11);
    BitMask(w, 12);
    ModeBits(w);
  }

  lemma ModeBits(w: bv32)
    ensures Mpp(w) == 0 <==> !Meets(w, 0x800) && !Meets(w, 0x1000)
    ensures Mpp(w) == 1 <==> Meets(w, 0x800) && !Meets(w, 0x1000)
    ensures Mpp(w) == 3 <==> Meets(w, 0x800) && Meets(w, 0x1000)
  {}

  // ---------- what traps and returns do to the status ----------

  /** The bits of the masks in use. */
  lemma FieldMasks(n: bv32)
    requires n < 32
    ensures Bit(0x2, n) <==> n == 1
    ensures Bit(0x8, n) <==> n == 3
    ensures Bit(0x20, n) <==> n == 5
    ensures Bit(0x80, n) <==> n == 7
    ensures Bit(0x100, n) <==> n == 8
    ensures Bit(0x800, n) <==> n == 11
    ensures Bit(0x1800, n) <==> n == 11 || n == 12
    ensures Bit(0x2_0000, n) <==> n == 17
  {
    hide Bit;
    BitPower(1, n);
    BitPower(3, n);
    BitPower(5, n);
    BitPower(7, n);
    BitPower(8, n);
    BitPower(11, n);
    BitPower(17, n);
    BitMask(0x1800, n);
    TwoBits(n);
  }

  lemma TwoBits(n: bv32)
    requires n < 32
    ensures Meets(0x1800, Power(n)) <==> n == 11 || n == 12
  {}

  /** What each mask does to one bit. */
  lemma Touched(w: bv32, mask: bv32, n: bv32)
    requires n < 32
    ensures Bit(Or(w, mask), n) <==> Bit(w, n) || Bit(mask, n)
    ensures Bit(Except(w, mask), n) <==> Bit(w, n) && !Bit(mask, n)
  {
    BitOr(w, mask, n);
    BitExcept(w, mask, n);
  }

  /** A trap to M mode: MPIE takes MIE, MIE is cleared, MPP takes the mode, nothing else changes. */
  lemma EnterMBits(w: bv32, p: Priv, n: bv32)
    requires n < 32
    ensures Bit(EnterM(w, p), n) <==>
            if n == 3 then false
            else if n == 7 then Bit(w, 3)
            else if n == 11 then p != U
            else if n == 12 then p == M
            else Bit(w, n)
  {
    hide Bit, Mie, Or, Except;
    Fields(w);
    FieldMasks(n);
    var a := if Mie(w) then Or(w, 0x80) else Except(w, 0x80);
    var b := Except(Except(a, 0x8), 0x1800);
    Touched(w, 0x80, n);
    Touched(a, 0x8, n);
    Touched(Except(a, 0x8), 0x1800, n);
    Touched(b, 0x800, n);
    Touched(b, 0x1800, n);
  }

  /** A trap to S mode: SPIE takes SIE, SIE is cleared, SPP takes the mode, nothing else changes. */
  lemma EnterSBits(w: bv32, p: Priv, n: bv32)
    requires n < 32
    ensures Bit(EnterS(w, p), n) <==>
            if n == 1 then false
            else if n == 5 then Bit(w, 1)
            else if n == 8 then p != U
            else Bit(w, n)
  {
    hide Bit, Sie, Or, Except;
    Fields(w);
    FieldMasks(n);
    var a := if Sie(w) then Or(w, 0x20) else Except(w, 0x20);
    var b := Except(Except(a, 0x2), 0x100);
    Touched(w, 0x20, n);
    Touched(a, 0x2, n);
    Touched(Except(a, 0x2), 0x100, n);
    Touched(b, 0x100, n);
  }

  /** MRET: MIE takes MPIE, MPIE is set, MPP is cleared, and MPRV unless the return is to M mode. */
  lemma LeaveMBits(w: bv32, n: bv32)
    requires n < 32
    ensures Bit(LeaveM(w), n) <==>
            if n == 3 then Bit(w, 7)
            else if n == 7 then true
            else if n == 11 || n == 12 then false
            else if n == 17 then Bit(w, 17) && Bit(w, 11) && Bit(w, 12)
            else Bit(w, n)
  {
    hide Bit, Mpie, Mpp, Or, Except;
    Fields(w);
    PreviousMode(w);
    FieldMasks(n);
    var a := if Mpie(w) then Or(w, 0x8) else Except(w, 0x8);
    var b := Except(Or(a, 0x80), 0x1800);
    Touched(w, 0x8, n);
    Touched(a, 0x80, n);
    Touched(Or(a, 0x80), 0x1800, n);
    Touched(b, 0x2_0000, n);
  }

  /** SRET: SIE takes SPIE, SPIE is set, SPP and MPRV are cleared. */
  lemma LeaveSBits(w: bv32, n: bv32)
    requires n < 32
    ensures Bit(LeaveS(w), n) <==>
            if n == 1 then Bit(w, 5)
            else if n == 5 then true
            else if n == 8 || n == 17 then false
            else Bit(w, n)
  {
    hide Bit, Spie, Or, Except;
    Fields(w);
    FieldMasks(n);
    var a := if Spie(w) then Or(w, 0x2) else Except(w, 0x2);
    Touched(w, 0x2, n);
    Touched(a, 0x20, n);
    Touched(Or(a, 0x20), 0x100, n);
    Touched(Except(Or(a, 0x20), 0x100), 0x2_0000, n);
  }

  // ---------- what is saved, restored and spared ----------

  lemma SameMode(x: bv32, y: bv32)
    requires Bit(x, 11) == Bit(y, 11) && Bit(x, 12) == Bit(y, 12)
    ensures Mpp(x) == Mpp(y)
  {
    hide Bit;
    PreviousMode(x);
    PreviousMode(y);
    FourModes(x);
    FourModes(y);
  }

  lemma FourModes(w: bv32)
    ensures Mpp(w) == 0 || Mpp(w) == 1 || Mpp(w) == 2 || Mpp(w) == 3
  {}

  lemma EnterMSaves(w: bv32, p: Priv)
    ensures PrivOf(Mpp(EnterM(w, p))) == p && GoodMpp(EnterM(w, p))
    ensures Mpie(EnterM(w, p)) == Mie(w) && !Mie(EnterM(w, p))
  {
    hide Bit, Mie, Mpie, Mpp, EnterM;
    Fields(w);
    Fields(EnterM(w, p));
    PreviousMode(EnterM(w, p));
    EnterMBits(w, p, 3);
    EnterMBits(w, p, 7);
    EnterMBits(w, p, 11);
    EnterMBits(w, p, 12);
  }

  lemma EnterMSpares(w: bv32, p: Priv)
    ensures Sie(EnterM(w, p)) == Sie(w) && Spp(EnterM(w, p)) == Spp(w) && Spie(EnterM(w, p)) == Spie(w)
  {
    hide Bit, Sie, Spp, Spie, EnterM;
    Fields(w);
    Fields(EnterM(w, p));
    EnterMBits(w, p, 1);
    EnterMBits(w, p, 5);
    EnterMBits(w, p, 8);
  }

  lemma LeaveMRestores(w: bv32)
    ensures Mie(LeaveM(w)) == Mpie(w) && GoodMpp(LeaveM(w))
  {
    hide Bit, Mie, Mpie, Mpp, LeaveM;
    Fields(w);
    Fields(LeaveM(w));
    PreviousMode(LeaveM(w));
    LeaveMBits(w, 3);
    LeaveMBits(w, 11);
    LeaveMBits(w, 12);
  }

  lemma EnterSSaves(w: bv32, p: Priv)
    ensures Spp(EnterS(w, p)) == (p != U) && Spie(EnterS(w, p)) == Sie(w) && !Sie(EnterS(w, p))
  {
    hide Bit, Sie, Spp, Spie, EnterS;
    Fields(w);
    Fields(EnterS(w, p));
    EnterSBits(w, p, 1);
    EnterSBits(w, p, 5);
    EnterSBits(w, p, 8);
  }

  lemma EnterSSpares(w: bv32, p: Priv)
    ensures Mie(EnterS(w, p)) == Mie(w) && GoodMpp(EnterS(w, p)) == GoodMpp(w)
            && Mpp(EnterS(w, p)) == Mpp(w) && Mpie(EnterS(w, p)) == Mpie(w)
  {
    hide Bit, Mie, Mpie, Mpp, EnterS;
    Fields(w);
    Fields(EnterS(w, p));
    EnterSBits(w, p, 3);
    EnterSBits(w, p, 7);
    EnterSBits(w, p, 11);
    EnterSBits(w, p, 12);
    SameMode(EnterS(w, p), w);
  }

  lemma LeaveSRestores(w: bv32)
    ensures Sie(LeaveS(w)) == Spie(w) && !Spp(LeaveS(w)) && GoodMpp(LeaveS(w)) == GoodMpp(w)
  {
    hide Bit, Sie, Spie, Spp, Mpp, LeaveS;
    Fields(w);
    Fields(LeaveS(w));
    LeaveSBits(w, 1);
    LeaveSBits(w, 8);
    LeaveSBits(w, 11);
    LeaveSBits(w, 12);
    SameMode(LeaveS(w), w);
  }
}
