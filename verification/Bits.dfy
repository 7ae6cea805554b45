/** The handful of bit-vector facts everything else is built from. Cells are `bv64`; `Xor` names
    the one operation that matters algebraically, so that proofs above this module can treat it
    as an abelian group of exponent two instead of as 64 separate bits. */
module Bits {
  function Xor(a: bv64, b: bv64): bv64 { a ^ b }

  // Cell by cell.
  function XorCells(x: seq<bv64>, k: seq<bv64>): (y: seq<bv64>)
    requires |x| == |k|
    ensures |y| == |x|
  {
    seq(|x|, i requires 0 <= i < |x| => Xor(x[i], k[i]))
  }

  lemma XorZero(a: bv64)
    ensures Xor(a, 0) == a && Xor(0, a) == a && Xor(a, a) == 0
  {}

  lemma XorComm(a: bv64, b: bv64)
    ensures Xor(a, b) == Xor(b, a)
  {
    assert a ^ b == b ^ a;
  }

  lemma XorAssoc(a: bv64, b: bv64, c: bv64)
    ensures Xor(Xor(a, b), c) == Xor(a, Xor(b, c))
  {
    hide Xor;
    XorDef(a, b);
    XorDef(b, c);
    Regroup(a, b, c);
  }

  lemma XorDef(a: bv64, b: bv64)
    ensures Xor(a, b) == a ^ b
  {}

  lemma Regroup(a: bv64, b: bv64, c: bv64)
    ensures Xor(a ^ b, c) == Xor(a, b ^ c)
  {}

  // The two middle terms of a four-term sum change places.
  lemma XorSwap(a: bv64, b: bv64, c: bv64, d: bv64)
    ensures Xor(Xor(a, b), Xor(c, d)) == Xor(Xor(a, c), Xor(b, d))
  {
    hide Xor;
    XorAssoc(a, b, Xor(c, d));
    XorAssoc(b, c, d);
    XorComm(b, c);
    XorAssoc(c, b, d);
    XorAssoc(a, c, Xor(b, d));
  }

  lemma XorCancel(a: bv64, b: bv64)
    ensures Xor(Xor(a, b), b) == a
  {
    hide Xor;
    XorAssoc(a, b, b);
    XorZero(b);
    XorZero(a);
  }

  lemma XorEqual(a: bv64, b: bv64)
    requires Xor(a, b) == 0
    ensures a == b
  {
    hide Xor;
    XorCancel(a, b);
    XorZero(b);
  }

  lemma ShlXor(a: bv64, b: bv64)
    ensures Xor(a, b) << 1 == Xor(a << 1, b << 1)
  {
    hide Xor;
    XorDef(a, b);
    XorDef(a << 1, b << 1);
    ShlSum(Xor(a, b), a, b);
  }

  lemma ShlSum(s: bv64, a: bv64, b: bv64)
    requires s == a ^ b
    ensures s << 1 == (a << 1) ^ (b << 1)
  {}

  lemma ShrXor(a: bv64, b: bv64)
    ensures Xor(a, b) >> 1 == Xor(a >> 1, b >> 1)
  {
    hide Xor;
    XorDef(a, b);
    XorDef(a >> 1, b >> 1);
    ShrSum(Xor(a, b), a, b);
  }

  lemma ShrSum(s: bv64, a: bv64, b: bv64)
    requires s == a ^ b
    ensures s >> 1 == (a >> 1) ^ (b >> 1)
  {}
}
