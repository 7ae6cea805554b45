/** Arithmetic in GF(2^64) modulo x^64 + x^4 + x^3 + x + 1 (core/src/gf.rs).
    The cipher only ever multiplies by x. `Mul` is the field product that the lane-wise code
    has to agree with; everything the diffusion layer needs follows from `Xtime` being linear. */
module Field {
  import opened Bits

  // Multiplication by x, as the cipher computes it: shift up, fold the departing bit.
  function Xtime(v: bv64): bv64 {
    (v << 1) ^ ((0 - (v >> 63)) & 0x1B)
  }

  // Xtime is multiplication by x modulo p(x): shift with one more bit of room, then subtract
  // p(x) if the degree reached 64.
  lemma XtimeIsTimesX(v: bv64)
    ensures Xtime(v) as bv65 == TimesX(v)
  {
    hide Xtime;
    TopBit(v);
    if v >> 63 == 0 { StaysBelow(v); } else { Departs(v); }
  }

  function TimesX(v: bv64): bv65 {
    var wide := (v as bv65) << 1;
    if wide >= 0x1_0000_0000_0000_0000 then wide ^ 0x1_0000_0000_0000_001B else wide
  }

  lemma TopBit(v: bv64)
    ensures v >> 63 == 0 || v >> 63 == 1
  {}

  lemma StaysBelow(v: bv64)
    requires v >> 63 == 0
    ensures Xtime(v) as bv65 == TimesX(v)
  {}

  lemma Departs(v: bv64)
    requires v >> 63 == 1
    ensures Xtime(v) as bv65 == TimesX(v)
  {}

  // The fold of the departing bit, and Xtime as a sum.
  function Carry(v: bv64): bv64 {
    if v >> 63 == 1 then 0x1B else 0
  }

  lemma XtimeIsSum(v: bv64)
    ensures Xtime(v) == Xor(v << 1, Carry(v))
  {
    if v >> 63 != 1 { assert v >> 63 == 0; }
  }

  // v times x^e.
  function XPow(e: nat, v: bv64): bv64 {
    if e == 0 then v else Xtime(XPow(e - 1, v))
  }

  // Coefficient e of c, that is c >> e & 1.
  predicate Bit(c: bv64, e: nat)
    decreases e
  {
    if e == 0 then c & 1 == 1 else Bit(c >> 1, e - 1)
  }

  // What coefficient e of c adds to the product c * v.
  function Term(c: bv64, v: bv64, e: nat): bv64 {
    if Bit(c, e) then XPow(e, v) else 0
  }

  // The part of the product c * v that comes from the n lowest coefficients of c.
  function MulLow(c: bv64, v: bv64, n: nat): bv64 {
    if n == 0 then 0 else Xor(MulLow(c, v, n - 1), Term(c, v, n - 1))
  }

  // The number of bits up to and including the highest set one: 64 - c.leading_zeros().
  function BitLength(c: bv64): nat
    decreases c
  {
    if c == 0 then 0 else 1 + BitLength(c >> 1)
  }

  // The field product: the sum of x^e * v over every power x^e in c.
  function Mul(c: bv64, v: bv64): bv64 {
    MulLow(c, v, BitLength(c))
  }

  // ----- linearity in the second operand -----

  lemma XtimeXor(a: bv64, b: bv64)
    ensures Xtime(Xor(a, b)) == Xor(Xtime(a), Xtime(b))
  {
    hide Xtime, Xor, Carry;
    XtimeIsSum(a);
    XtimeIsSum(b);
    XtimeIsSum(Xor(a, b));
    ShlXor(a, b);
    CarryXor(a, b);
    XorSwap(a << 1, b << 1, Carry(a), Carry(b));
  }

  lemma CarryXor(a: bv64, b: bv64)
    ensures Carry(Xor(a, b)) == Xor(Carry(a), Carry(b))
  {
    assert (a ^ b) >> 63 == (a >> 63) ^ (b >> 63);
    TopBit(a);
    TopBit(b);
  }

  lemma {:induction false} XPowXor(e: nat, a: bv64, b: bv64)
    ensures XPow(e, Xor(a, b)) == Xor(XPow(e, a), XPow(e, b))
  {
    hide Xtime, Xor;
    if e > 0 {
      XPowXor(e - 1, a, b);
      XtimeXor(XPow(e - 1, a), XPow(e - 1, b));
    }
  }

  lemma {:induction false} MulLowXor(c: bv64, a: bv64, b: bv64, n: nat)
    ensures MulLow(c, Xor(a, b), n) == Xor(MulLow(c, a, n), MulLow(c, b, n))
  {
    hide Xtime, Xor, Bit;
    XorZero(0);
    if n > 0 {
      MulLowXor(c, a, b, n - 1);
      XPowXor(n - 1, a, b);
      XorSwap(MulLow(c, a, n - 1), MulLow(c, b, n - 1), Term(c, a, n - 1), Term(c, b, n - 1));
    }
  }

  lemma MulXor(c: bv64, a: bv64, b: bv64)
    ensures Mul(c, Xor(a, b)) == Xor(Mul(c, a), Mul(c, b))
  {
    hide Xor;
    MulLowXor(c, a, b, BitLength(c));
  }

  lemma MulZero(c: bv64)
    ensures Mul(c, 0) == 0
  {
    hide Xor, Mul;
    XorZero(0);
    MulXor(c, 0, 0);
    XorZero(Mul(c, 0));
  }

  // ----- linearity in the first operand -----

  lemma {:induction false} BitXor(a: bv64, b: bv64, e: nat)
    ensures Bit(Xor(a, b), e) == (Bit(a, e) != Bit(b, e))
    decreases e
  {
    hide Xor;
    if e > 0 {
      ShrXor(a, b);
      BitXor(a >> 1, b >> 1, e - 1);
    } else {
      LowBitXor(a, b);
    }
  }

  lemma LowBitXor(a: bv64, b: bv64)
    ensures (Xor(a, b) & 1 == 1) == ((a & 1 == 1) != (b & 1 == 1))
  {
    assert (a ^ b) & 1 == (a & 1) ^ (b & 1);
    assert a & 1 == 0 || a & 1 == 1;
    assert b & 1 == 0 || b & 1 == 1;
  }

  // A number whose bits all lie inside bound has no bit at or above bound's length.
  lemma {:induction false} BitBeyond(c: bv64, bound: bv64, e: nat)
    requires c & bound == c
    requires BitLength(bound) <= e
    ensures !Bit(c, e)
    decreases e
  {
    if e == 0 {
      assert bound == 0;
    } else {
      ShiftInside(c, bound);
      BitBeyond(c >> 1, bound >> 1, e - 1);
    }
  }

  lemma ShiftInside(c: bv64, bound: bv64)
    requires c & bound == c
    ensures (c >> 1) & (bound >> 1) == c >> 1
    ensures bound == 0 ==> bound >> 1 == 0
  {}

  // Reading more coefficients than c has changes nothing.
  lemma {:induction false} MulLowEnough(c: bv64, bound: bv64, v: bv64, n: nat)
    requires c & bound == c
    requires BitLength(bound) <= n
    ensures MulLow(c, v, n) == MulLow(c, v, BitLength(bound))
  {
    hide Xor, Bit, BitLength;
    if n > BitLength(bound) {
      MulLowEnough(c, bound, v, n - 1);
      BitBeyond(c, bound, n - 1);
      XorZero(MulLow(c, v, n - 1));
    }
  }

  lemma MulIsMulLow(c: bv64, v: bv64, n: nat)
    requires BitLength(c) <= n
    ensures Mul(c, v) == MulLow(c, v, n)
  {
    hide Xor, Bit, BitLength, MulLow;
    assert c & c == c;
    MulLowEnough(c, c, v, n);
  }

  lemma {:induction false} MulLowSum(a: bv64, b: bv64, v: bv64, n: nat)
    ensures MulLow(Xor(a, b), v, n) == Xor(MulLow(a, v, n), MulLow(b, v, n))
  {
    hide Xor, Bit, XPow;
    XorZero(0);
    if n > 0 {
      MulLowSum(a, b, v, n - 1);
      BitXor(a, b, n - 1);
      XorZero(XPow(n - 1, v));
      XorSwap(MulLow(a, v, n - 1), MulLow(b, v, n - 1), Term(a, v, n - 1), Term(b, v, n - 1));
    }
  }

  lemma MulSum(a: bv64, b: bv64, v: bv64)
    ensures Mul(Xor(a, b), v) == Xor(Mul(a, v), Mul(b, v))
  {
    hide Xor, MulLow, BitLength, Mul;
    var n := BitLength(a) + BitLength(b) + BitLength(Xor(a, b));
    MulIsMulLow(a, v, n);
    MulIsMulLow(b, v, n);
    MulIsMulLow(Xor(a, b), v, n);
    MulLowSum(a, b, v, n);
  }

  // ----- all coefficients are polynomials in one operator, so they commute -----

  lemma {:induction false} XPowXtime(e: nat, v: bv64)
    ensures XPow(e, Xtime(v)) == Xtime(XPow(e, v))
  {
    hide Xtime;
    if e > 0 { XPowXtime(e - 1, v); }
  }

  lemma XtimeZero()
    ensures Xtime(0) == 0
  {}

  lemma {:induction false} MulLowXtime(c: bv64, v: bv64, n: nat)
    ensures MulLow(c, Xtime(v), n) == Xtime(MulLow(c, v, n))
  {
    hide Xor, Xtime, Bit;
    XtimeZero();
    if n > 0 {
      MulLowXtime(c, v, n - 1);
      XPowXtime(n - 1, v);
      XtimeXor(MulLow(c, v, n - 1), Term(c, v, n - 1));
    }
  }

  lemma {:induction false} MulXPow(c: bv64, e: nat, v: bv64)
    ensures Mul(c, XPow(e, v)) == XPow(e, Mul(c, v))
  {
    hide Xtime, MulLow, BitLength;
    if e > 0 {
      MulXPow(c, e - 1, v);
      MulLowXtime(c, XPow(e - 1, v), BitLength(c));
    }
  }

  lemma {:induction false} MulLowCommute(a: bv64, b: bv64, v: bv64, n: nat)
    ensures Mul(a, MulLow(b, v, n)) == MulLow(b, Mul(a, v), n)
  {
    hide Xor, Mul, Bit, XPow;
    MulZero(a);
    if n > 0 {
      MulLowCommute(a, b, v, n - 1);
      MulXPow(a, n - 1, v);
      MulXor(a, MulLow(b, v, n - 1), Term(b, v, n - 1));
    }
  }

  lemma MulCommute(a: bv64, b: bv64, v: bv64)
    ensures Mul(a, Mul(b, v)) == Mul(b, Mul(a, v))
  {
    hide MulLow, BitLength;
    MulLowCommute(a, b, v, BitLength(b));
  }

  lemma MulOne(v: bv64)
    ensures Mul(1, v) == v
  {
    hide Xor;
    assert (1 as bv64) >> 1 == 0;
    assert BitLength(1) == 1;
    assert Term(1, v, 0) == v;
    XorZero(v);
    assert MulLow(1, v, 1) == Xor(MulLow(1, v, 0), Term(1, v, 0));
  }
}
