/** The bits of a 32-bit register, counted from the lowest. */
module Bits {
  /** Halved n times, is it odd? */
  function Bit(w: bv32, n: bv32): bool { if n == 0 then Odd(w) else Bit(Half(w), n - 1) }

  predicate Odd(w: bv32) { w % 2 == 1 }
  function Half(w: bv32): bv32 { w / 2 }

  function Power(n: bv32): bv32
    requires n < 32
  {
    1 << n
  }

  predicate Meets(w: bv32, mask: bv32) { w & mask != 0 }

  lemma {:induction false} BitMask(w: bv32, n: bv32)
    requires n < 32
    ensures Bit(w, n) <==> Meets(w, Power(n))
    decreases n
  {
    hide Odd, Half, Power, Meets;
    if n == 0 {
      LowestBit(w);
    } else {
      BitMask(Half(w), n - 1);
      HalfMask(w, n);
    }
  }

  lemma LowestBit(w: bv32)
    ensures Odd(w) <==> Meets(w, Power(0))
  {}

  lemma PowerStep(n: bv32)
    requires 0 < n < 32
    ensures Power(n) == 2 * Power(n - 1) && Power(n - 1) < 0x8000_0000
  {}

  lemma HalfMask(w: bv32, n: bv32)
    requires 0 < n < 32
    ensures Meets(w, Power(n)) <==> Meets(Half(w), Power(n - 1))
  {
    PowerStep(n);
    hide Power;
    HalfMeets(w, Power(n - 1));
  }

  lemma HalfMeets(w: bv32, p: bv32)
    requires p < 0x8000_0000
    ensures Meets(w, 2 * p) <==> Meets(Half(w), p)
  {}

  // ---------- each operator works bit by bit ----------

  function And(a: bv32, b: bv32): bv32 { a & b }
  function Or(a: bv32, b: bv32): bv32 { a | b }
  function Except(a: bv32, b: bv32): bv32 { a & !b }

  lemma {:induction false} BitAnd(a: bv32, b: bv32, n: bv32)
    requires n < 32
    ensures Bit(And(a, b), n) <==> Bit(a, n) && Bit(b, n)
    decreases n
  {
    hide And, Odd, Half;
    HalfAnd(a, b);
    if n > 0 {
      BitAnd(Half(a), Half(b), n - 1);
    }
  }

  lemma {:induction false} BitOr(a: bv32, b: bv32, n: bv32)
    requires n < 32
    ensures Bit(Or(a, b), n) <==> Bit(a, n) || Bit(b, n)
    decreases n
  {
    hide Or, Odd, Half;
    HalfOr(a, b);
    if n > 0 {
      BitOr(Half(a), Half(b), n - 1);
    }
  }

  lemma {:induction false} BitExcept(a: bv32, b: bv32, n: bv32)
    requires n < 32
    ensures Bit(Except(a, b), n) <==> Bit(a, n) && !Bit(b, n)
    decreases n
  {
    hide Except, Odd, Half;
    HalfExcept(a, b);
    if n > 0 {
      BitExcept(Half(a), Half(b), n - 1);
    }
  }

  lemma HalfAnd(a: bv32, b: bv32)
    ensures Half(And(a, b)) == And(Half(a), Half(b)) && (Odd(And(a, b)) <==> Odd(a) && Odd(b))
  {}

  lemma HalfOr(a: bv32, b: bv32)
    ensures Half(Or(a, b)) == Or(Half(a), Half(b)) && (Odd(Or(a, b)) <==> Odd(a) || Odd(b))
  {}

  lemma HalfExcept(a: bv32, b: bv32)
    ensures Half(Except(a, b)) == Except(Half(a), Half(b)) && (Odd(Except(a, b)) <==> Odd(a) && !Odd(b))
  {}

  lemma BitPower(k: bv32, n: bv32)
    requires k < 32 && n < 32
    ensures Bit(Power(k), n) <==> n == k
  {
    hide Bit;
    BitMask(Power(k), n);
    PowersApart(k, n);
  }

  lemma PowersApart(k: bv32, n: bv32)
    requires k < 32 && n < 32
    ensures Meets(Power(k), Power(n)) <==> n == k
  {}
}
