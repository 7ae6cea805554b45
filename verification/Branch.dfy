/** The height-4 diffusion layer is MDS: a nonzero column and its image together have at least
    five nonzero cells, over all 2^256 columns. The involution reduces columns of weight three
    and four to images of low weight, so only single entries and 2x2 minors are left, and those
    factor into x, x+1, x^2+x+1 and x^3+x^2+1, each of which is injective on `bv64`. */
module Branch {
  import opened Bits
  import opened Field
  import opened Hadamard
  import opened Mds

  // ----- products of small coefficients -----

  lemma MulTwo(v: bv64)
    ensures Mul(2, v) == Xtime(v)
  {
    hide Xor, Xtime;
    assert (2 as bv64) >> 1 == 1 && (1 as bv64) >> 1 == 0;
    assert BitLength(2) == 2;
    assert !Bit(2, 0) && Bit(2, 1);
    assert XPow(1, v) == Xtime(XPow(0, v));
    assert MulLow(2, v, 1) == Xor(MulLow(2, v, 0), Term(2, v, 0));
    assert MulLow(2, v, 2) == Xor(MulLow(2, v, 1), Term(2, v, 1));
    XorZero(0);
    XorZero(Xtime(v));
  }

  lemma ShiftBack(c: bv64)
    requires c < 0x8000_0000_0000_0000
    ensures (c << 1) >> 1 == c
  {}

  lemma ShiftEven(c: bv64)
    ensures (c << 1) & 1 == 0
  {}

  lemma {:induction false} MulLowDouble(c: bv64, v: bv64, n: nat)
    requires c < 0x8000_0000_0000_0000
    ensures MulLow(c << 1, v, n + 1) == Xtime(MulLow(c, v, n))
  {
    var d := c << 1;
    ShiftBack(c);
    ShiftEven(c);
    hide Xor, Xtime;
    if n == 0 {
      assert !Bit(d, 0);
      assert MulLow(d, v, 1) == Xor(MulLow(d, v, 0), Term(d, v, 0));
      XorZero(0);
      XtimeZero();
    } else {
      MulLowDouble(c, v, n - 1);
      assert Bit(d, n) == Bit(c, n - 1);
      XtimeZero();
      XtimeXor(MulLow(c, v, n - 1), Term(c, v, n - 1));
    }
  }

  lemma MulDouble(c: bv64, v: bv64)
    requires c < 0x8000_0000_0000_0000
    ensures Mul(2, Mul(c, v)) == Mul(c << 1, v)
  {
    hide Xor, Xtime, MulLow, BitLength, Mul;
    var n := BitLength(c) + BitLength(c << 1);
    MulIsMulLow(c, v, n);
    MulIsMulLow(c << 1, v, n + 1);
    MulLowDouble(c, v, n);
    MulTwo(Mul(c, v));
  }

  // x^2 * c * v and (x^2 + x) * c * v for small c
  lemma MulFour(c: bv64, v: bv64)
    requires c < 0x4000_0000_0000_0000
    ensures Mul(4, Mul(c, v)) == Mul(c << 2, v)
  {
    hide Mul;
    MulDouble(2, Mul(c, v));
    MulDouble(c, v);
    assert c << 1 < 0x8000_0000_0000_0000;
    MulDouble(c << 1, v);
    assert (c << 1) << 1 == c << 2;
  }

  // s * p as an unreduced product, for the coefficients that occur in the matrix.
  predicate Coefficient(c: bv64) {
    c == 1 || c == 2 || c == 4 || c == 6
  }

  function Times(s: bv64, p: bv64): bv64
    requires Coefficient(s)
  {
    if s == 1 then p else if s == 2 then p << 1 else if s == 4 then p << 2 else Xor(p << 1, p << 2)
  }

  lemma TimesIsMul(s: bv64, p: bv64, v: bv64)
    requires Coefficient(s) && p < 0x4000_0000_0000_0000
    ensures Mul(s, Mul(p, v)) == Mul(Times(s, p), v)
  {
    hide Mul, Xor;
    MulOne(Mul(p, v));
    MulDouble(p, v);
    MulFour(p, v);
    MulSum(2, 4, Mul(p, v));
    MulSum(p << 1, p << 2, v);
    XorDef(2, 4);
  }

  // ----- injectivity of the determinants -----

  lemma KernelX(v: bv64)
    requires Xtime(v) == 0
    ensures v == 0
  {}

  lemma KernelX1(v: bv64)
    requires Xtime(v) == v
    ensures v == 0
  {}

  lemma KernelX2(v: bv64)
    requires Xor(Xtime(Xtime(v)), Xtime(v)) == v
    ensures v == 0
  {}

  lemma KernelX3(v: bv64)
    requires Xor(Xtime(Xtime(Xtime(v))), Xtime(Xtime(v))) == v
    ensures v == 0
  {}

  // Multiplication by x, x+1, x^2+x+1 and x^3+x^2+1 has no kernel.
  lemma KernelPrime(d: bv64, v: bv64)
    requires d == 2 || d == 3 || d == 7 || d == 13
    requires Mul(d, v) == 0
    ensures v == 0
  {
    hide Mul, Xor, Xtime;
    var x1 := Xtime(v);
    var x2 := Xtime(x1);
    var x3 := Xtime(x2);
    MulOne(v);
    MulTwo(v);
    MulTwo(x1);
    MulTwo(x2);
    MulDouble(2, v);
    MulDouble(4, v);
    if d == 2 {
      KernelX(v);
    } else if d == 3 {
      MulSum(2, 1, v);
      XorDef(2, 1);
      XorEqual(x1, v);
      KernelX1(v);
    } else if d == 7 {
      MulSum(4, 2, v);
      MulSum(6, 1, v);
      XorDef(4, 2);
      XorDef(6, 1);
      XorEqual(Xor(x2, x1), v);
      KernelX2(v);
    } else {
      MulSum(8, 4, v);
      MulSum(12, 1, v);
      XorDef(8, 4);
      XorDef(12, 1);
      XorEqual(Xor(x3, x2), v);
      KernelX3(v);
    }
  }

  // The determinants of the 2x2 minors, and how each factors.
  predicate Determinant(d: bv64) {
    d == 4 || d == 5 || d == 8 || d == 14 || d == 16 || d == 17 || d == 20 || d == 21 || d == 26
  }

  lemma SquareX1(v: bv64)
    ensures Mul(3, Mul(3, v)) == Mul(5, v)
  {
    hide Mul, Xor;
    MulSum(2, 1, Mul(3, v));
    MulDouble(3, v);
    MulOne(Mul(3, v));
    MulSum(6, 3, v);
    XorDef(2, 1);
    XorDef(6, 3);
  }

  lemma FourthX1(v: bv64)
    ensures Mul(5, Mul(5, v)) == Mul(17, v)
  {
    hide Mul, Xor;
    MulSum(4, 1, Mul(5, v));
    MulFour(5, v);
    MulOne(Mul(5, v));
    MulSum(20, 5, v);
    XorDef(4, 1);
    XorDef(20, 5);
  }

  lemma SquareX2(v: bv64)
    ensures Mul(7, Mul(7, v)) == Mul(21, v)
  {
    hide Mul, Xor;
    var w := Mul(7, v);
    MulSum(4, 2, w);
    MulSum(6, 1, w);
    MulDouble(7, v);
    MulFour(7, v);
    MulOne(w);
    MulSum(28, 14, v);
    MulSum(18, 7, v);
    XorDef(4, 2);
    XorDef(6, 1);
    XorDef(28, 14);
    XorDef(18, 7);
  }

  lemma KernelDeterminant(d: bv64, v: bv64)
    requires Determinant(d)
    requires Mul(d, v) == 0
    ensures v == 0
  {
    hide Mul;
    if d == 4 || d == 8 || d == 16 {
      MulDouble(2, v);
      MulDouble(4, v);
      MulDouble(8, v);
      if d == 16 { KernelPrime(2, Mul(8, v)); }
      if d != 4 { KernelPrime(2, Mul(4, v)); }
      KernelPrime(2, Mul(2, v));
      KernelPrime(2, v);
    } else if d == 14 {
      MulDouble(7, v);
      KernelPrime(2, Mul(7, v));
      KernelPrime(7, v);
    } else if d == 26 {
      MulDouble(13, v);
      KernelPrime(2, Mul(13, v));
      KernelPrime(13, v);
    } else if d == 21 {
      SquareX2(v);
      KernelPrime(7, Mul(7, v));
      KernelPrime(7, v);
    } else if d == 17 {
      FourthX1(v);
      KernelFive(Mul(5, v));
      KernelFive(v);
    } else if d == 20 {
      MulDouble(5, v);
      MulDouble(10, v);
      KernelPrime(2, Mul(10, v));
      KernelPrime(2, Mul(5, v));
      KernelFive(v);
    } else {
      KernelFive(v);
    }
  }

  lemma KernelFive(v: bv64)
    requires Mul(5, v) == 0
    ensures v == 0
  {
    hide Mul;
    SquareX1(v);
    KernelPrime(3, Mul(3, v));
    KernelPrime(3, v);
  }

  // ----- minors -----

  lemma KernelCoefficient(c: bv64, v: bv64)
    requires Coefficient(c)
    requires Mul(c, v) == 0
    ensures v == 0
  {
    hide Mul;
    if c == 1 {
      MulOne(v);
    } else if c == 2 {
      KernelPrime(2, v);
    } else if c == 4 {
      KernelDeterminant(4, v);
    } else {
      MulDouble(3, v);
      KernelPrime(2, Mul(3, v));
      KernelPrime(3, v);
    }
  }

  // A 2x2 system with an injective determinant has only the zero solution.
  lemma Minor(p: bv64, q: bv64, r: bv64, s: bv64, a: bv64, b: bv64)
    requires Coefficient(p) && Coefficient(q) && Coefficient(r) && Coefficient(s)
    requires Determinant(Xor(Times(s, p), Times(q, r)))
    requires Xor(Mul(p, a), Mul(q, b)) == 0
    requires Xor(Mul(r, a), Mul(s, b)) == 0
    ensures a == 0 && b == 0
  {
    hide Mul, Xor, Times, Determinant;
    XorEqual(Mul(p, a), Mul(q, b));
    XorEqual(Mul(r, a), Mul(s, b));
    MulCommute(s, q, b);
    TimesIsMul(s, p, a);
    TimesIsMul(q, r, a);
    MulSum(Times(s, p), Times(q, r), a);
    XorZero(Mul(Times(s, p), a));
    KernelDeterminant(Xor(Times(s, p), Times(q, r)), a);
    MulZero(p);
    KernelCoefficient(q, b);
  }

  // Every 2x2 minor of the matrix has one of those determinants.
  lemma MatrixMinors(i: nat, l: nat, j: nat, k: nat)
    requires i < l < 4 && j < k < 4
    ensures Coefficient(MDS_4[i][j]) && Coefficient(MDS_4[i][k]) && Coefficient(MDS_4[l][j]) && Coefficient(MDS_4[l][k])
    ensures Determinant(Xor(Times(MDS_4[l][k], MDS_4[i][j]), Times(MDS_4[i][k], MDS_4[l][j])))
  {
    RowPair(MDS_4[i], MDS_4[l], j, k);
  }

  lemma RowPair(u: seq<bv64>, v: seq<bv64>, j: nat, k: nat)
    requires (u == [1, 2, 4, 6] && (v == [2, 1, 6, 4] || v == [4, 6, 1, 2] || v == [6, 4, 2, 1]))
             || (u == [2, 1, 6, 4] && (v == [4, 6, 1, 2] || v == [6, 4, 2, 1]))
             || (u == [4, 6, 1, 2] && v == [6, 4, 2, 1])
    requires j < k < 4
    ensures Coefficient(u[j]) && Coefficient(u[k]) && Coefficient(v[j]) && Coefficient(v[k])
    ensures Determinant(Xor(Times(v[k], u[j]), Times(u[k], v[j])))
  {
    if j == 0 && k == 1 {
    } else if j == 0 && k == 2 {
    } else if j == 0 && k == 3 {
    } else if j == 1 && k == 2 {
    } else if j == 1 && k == 3 {
    } else {
      assert j == 2 && k == 3;
    }
  }

  // ----- weights -----

  // The number of nonzero cells.
  function Weight(x: seq<bv64>): (w: nat)
    ensures w <= |x|
  {
    if |x| == 0 then 0 else Weight(x[..|x| - 1]) + (if x[|x| - 1] != 0 then 1 else 0)
  }

  function One(v: bv64): nat { if v != 0 then 1 else 0 }

  lemma Weight4(x: seq<bv64>)
    requires |x| == 4
    ensures Weight(x) == One(x[0]) + One(x[1]) + One(x[2]) + One(x[3])
  {
    var a, b, c := x[..3], x[..2], x[..1];
    assert a[..2] == b && b[..1] == c && c[..0] == [];
    assert Weight(c) == One(x[0]);
    assert Weight(b) == One(x[0]) + One(x[1]);
    assert Weight(a) == One(x[0]) + One(x[1]) + One(x[2]);
  }

  lemma Dot4(r: seq<bv64>, x: seq<bv64>)
    requires |r| == |x| == 4
    ensures Dot(r, x) == Xor(Xor(Xor(Mul(r[0], x[0]), Mul(r[1], x[1])), Mul(r[2], x[2])), Mul(r[3], x[3]))
  {
    hide Xor, Mul;
    var a, b, c, d, e, f := r[..3], r[..2], r[..1], x[..3], x[..2], x[..1];
    assert a[..2] == b && b[..1] == c && c[..0] == [];
    assert d[..2] == e && e[..1] == f && f[..0] == [];
    assert Dot(c, f) == Xor(Dot([], []), Mul(r[0], x[0]));
    XorZero(Mul(r[0], x[0]));
    assert Dot(b, e) == Xor(Dot(c, f), Mul(r[1], x[1]));
    assert Dot(a, d) == Xor(Dot(b, e), Mul(r[2], x[2]));
  }

  // x is zero outside cells j and k.
  predicate Supported(x: seq<bv64>, j: nat, k: nat) {
    |x| == 4 && j < 4 && k < 4 && forall i :: 0 <= i < 4 && i != j && i != k ==> x[i] == 0
  }

  lemma DotTwo(r: seq<bv64>, x: seq<bv64>, j: nat, k: nat)
    requires |r| == 4 && Supported(x, j, k) && j < k
    ensures Dot(r, x) == Xor(Mul(r[j], x[j]), Mul(r[k], x[k]))
  {
    hide Xor, Mul, Dot;
    Dot4(r, x);
    var a, b, c, d := Mul(r[0], x[0]), Mul(r[1], x[1]), Mul(r[2], x[2]), Mul(r[3], x[3]);
    var s := [a, b, c, d];
    forall i | 0 <= i < 4 ensures s[i] == Mul(r[i], x[i]) {
      if i == 0 {} else if i == 1 {} else if i == 2 {} else {}
    }
    forall i | 0 <= i < 4 && i != j && i != k ensures s[i] == 0 {
      MulZero(r[i]);
    }
    SumTwo(a, b, c, d, j, k);
  }

  lemma SumTwo(a: bv64, b: bv64, c: bv64, d: bv64, j: nat, k: nat)
    requires j < k < 4
    requires forall i :: 0 <= i < 4 && i != j && i != k ==> [a, b, c, d][i] == 0
    ensures Xor(Xor(Xor(a, b), c), d) == Xor([a, b, c, d][j], [a, b, c, d][k])
  {
    hide Xor;
    var s := [a, b, c, d];
    assert s[0] == a && s[1] == b && s[2] == c && s[3] == d;
    XorZero(0);
    XorZero(a);
    XorZero(b);
    XorZero(c);
    XorZero(d);
    XorZero(Xor(a, b));
    XorZero(Xor(a, c));
    XorZero(Xor(b, c));
  }

  // One nonzero cell makes every output cell nonzero.
  lemma SingleCell(x: seq<bv64>, j: nat)
    requires Supported(x, j, j) && x[j] != 0
    ensures Weight(MixColumn(4, x)) == 4
  {
    hide Xor, Mul, Dot, Weight;
    var k := if j == 0 then 1 else 0;
    forall i | 0 <= i < 4 ensures MixColumn(4, x)[i] != 0 {
      var r := MDS_4[i];
      DotTwo(r, x, if j < k then j else k, if j < k then k else j);
      MulZero(r[k]);
      XorZero(Mul(r[j], x[j]));
      if Mul(r[j], x[j]) == 0 {
        MatrixMinors(0, 1, 0, 1); MatrixMinors(2, 3, 0, 1); MatrixMinors(0, 1, 2, 3); MatrixMinors(2, 3, 2, 3);
        KernelCoefficient(r[j], x[j]);
      }
    }
    Weight4(MixColumn(4, x));
  }

  lemma WeightOne(x: seq<bv64>)
    requires |x| == 4 && Weight(x) == 1
    ensures Weight(MixColumn(4, x)) == 4
  {
    hide MixColumn, Weight;
    Weight4(x);
    var j :| 0 <= j < 4 && x[j] != 0;
    SingleCell(x, j);
  }

  // Two nonzero cells leave at most one output cell zero.
  lemma TwoZeros(x: seq<bv64>, j: nat, k: nat, i: nat, l: nat)
    requires Supported(x, j, k) && j < k && i < l < 4
    requires MixColumn(4, x)[i] == 0 && MixColumn(4, x)[l] == 0
    ensures x[j] == 0 && x[k] == 0
  {
    hide Xor, Mul, Dot, Times, Determinant;
    DotTwo(MDS_4[i], x, j, k);
    DotTwo(MDS_4[l], x, j, k);
    MatrixMinors(i, l, j, k);
    Minor(MDS_4[i][j], MDS_4[i][k], MDS_4[l][j], MDS_4[l][k], x[j], x[k]);
  }

  lemma WeightTwo(x: seq<bv64>, j: nat, k: nat)
    requires Supported(x, j, k) && j < k && x[j] != 0 && x[k] != 0
    ensures Weight(MixColumn(4, x)) >= 3
  {
    hide MixColumn, Weight;
    var y := MixColumn(4, x);
    Weight4(y);
    if Weight(y) < 3 {
      var i, l :| 0 <= i < l < 4 && y[i] == 0 && y[l] == 0;
      TwoZeros(x, j, k, i, l);
    }
  }

  lemma ZeroColumn(x: seq<bv64>)
    requires |x| == 4 && Weight(x) == 0
    ensures Weight(MixColumn(4, x)) == 0
  {
    hide Mul, Dot, Weight;
    Weight4(x);
    forall i | 0 <= i < 4 ensures MixColumn(4, x)[i] == 0 {
      DotTwo(MDS_4[i], x, 0, 1);
      MulZero(MDS_4[i][0]);
      MulZero(MDS_4[i][1]);
    }
    Weight4(MixColumn(4, x));
  }

  // The branch number is five.
  lemma BranchNumber(x: seq<bv64>)
    requires |x| == 4 && Weight(x) > 0
    ensures Weight(x) + Weight(MixColumn(4, x)) >= 5
  {
    hide MixColumn, Weight;
    var y := MixColumn(4, x);
    MixColumnInvolution(4, x);
    if Weight(y) == 0 {
      ZeroColumn(y);
    } else if Weight(x) == 1 {
      WeightOne(x);
    } else if Weight(x) == 2 {
      Weight4(x);
      var j, k :| 0 <= j < k < 4 && x[j] != 0 && x[k] != 0;
      WeightTwo(x, j, k);
    } else if Weight(y) == 1 {
      WeightOne(y);
    }
  }
}
