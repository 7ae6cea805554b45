/** The three diffusion matrices (core/src/consts/mds.rs) and the two facts the build asserts
    about them (core/src/grid.rs): each is Hadamard, and each is its own inverse. */
module Mds {
  import opened Bits
  import opened Field
  import opened Hadamard

  const MDS_4: seq<seq<bv64>> := [
    [1, 2, 4, 6],
    [2, 1, 6, 4],
    [4, 6, 1, 2],
    [6, 4, 2, 1]
  ]

  const MDS_8: seq<seq<bv64>> := [
    [1, 2, 3, 8, 4, 10, 9, 14],
    [2, 1, 8, 3, 10, 4, 14, 9],
    [3, 8, 1, 2, 9, 14, 4, 10],
    [8, 3, 2, 1, 14, 9, 10, 4],
    [4, 10, 9, 14, 1, 2, 3, 8],
    [10, 4, 14, 9, 2, 1, 8, 3],
    [9, 14, 4, 10, 3, 8, 1, 2],
    [14, 9, 10, 4, 8, 3, 2, 1]
  ]

  const MDS_16: seq<seq<bv64>> := [
    [1, 2, 3, 8, 4, 32, 64, 16, 5, 128, 6, 18, 12, 65, 132, 37],
    [2, 1, 8, 3, 32, 4, 16, 64, 128, 5, 18, 6, 65, 12, 37, 132],
    [3, 8, 1, 2, 64, 16, 4, 32, 6, 18, 5, 128, 132, 37, 12, 65],
    [8, 3, 2, 1, 16, 64, 32, 4, 18, 6, 128, 5, 37, 132, 65, 12],
    [4, 32, 64, 16, 1, 2, 3, 8, 12, 65, 132, 37, 5, 128, 6, 18],
    [32, 4, 16, 64, 2, 1, 8, 3, 65, 12, 37, 132, 128, 5, 18, 6],
    [64, 16, 4, 32, 3, 8, 1, 2, 132, 37, 12, 65, 6, 18, 5, 128],
    [16, 64, 32, 4, 8, 3, 2, 1, 37, 132, 65, 12, 18, 6, 128, 5],
    [5, 128, 6, 18, 12, 65, 132, 37, 1, 2, 3, 8, 4, 32, 64, 16],
    [128, 5, 18, 6, 65, 12, 37, 132, 2, 1, 8, 3, 32, 4, 16, 64],
    [6, 18, 5, 128, 132, 37, 12, 65, 3, 8, 1, 2, 64, 16, 4, 32],
    [18, 6, 128, 5, 37, 132, 65, 12, 8, 3, 2, 1, 16, 64, 32, 4],
    [12, 65, 132, 37, 5, 128, 6, 18, 4, 32, 64, 16, 1, 2, 3, 8],
    [65, 12, 37, 132, 128, 5, 18, 6, 32, 4, 16, 64, 2, 1, 8, 3],
    [132, 37, 12, 65, 6, 18, 5, 128, 64, 16, 4, 32, 3, 8, 1, 2],
    [37, 132, 65, 12, 18, 6, 128, 5, 16, 64, 32, 4, 8, 3, 2, 1]
  ]

  predicate ValidHeight(h: nat) {
    h == 4 || h == 8 || h == 16
  }

  function Matrix(h: nat): (t: seq<seq<bv64>>)
    requires ValidHeight(h)
    ensures |t| == h && forall i :: 0 <= i < h ==> |t[i]| == h
  {
    if h == 4 then MDS_4 else if h == 8 then MDS_8 else MDS_16
  }

  // The generating row, which is all the cipher reads.
  function Generator(h: nat): (m: seq<bv64>)
    requires ValidHeight(h)
    ensures |m| == h && IsOrder(|m|)
  {
    assert IsOrder(1) && IsOrder(2) && IsOrder(4) && IsOrder(8);
    Matrix(h)[0]
  }

  lemma Orders()
    ensures IsOrder(1) && IsOrder(2) && IsOrder(4) && IsOrder(8) && IsOrder(16)
  {
    assert IsOrder(1) && IsOrder(2) && IsOrder(4) && IsOrder(8);
  }

  // ----- the rows written out -----

  lemma Rows1(m: seq<bv64>)
    requires |m| == 1
    ensures Row(m, 0) == m
  {
    assert IndexXor(0, 0) == 0;
  }

  lemma Rows2(m: seq<bv64>)
    requires |m| == 2 && IsOrder(2)
    ensures Row(m, 0) == [m[0], m[1]]
    ensures Row(m, 1) == [m[1], m[0]]
  {
    hide Row, IndexXor;
    Orders();
    Rows1(m[..1]);
    Rows1(m[1..]);
    RowBlocks(m, 0, 1);
  }

  lemma Rows4(m: seq<bv64>)
    requires |m| == 4 && IsOrder(4)
    ensures Row(m, 0) == [m[0], m[1], m[2], m[3]]
    ensures Row(m, 1) == [m[1], m[0], m[3], m[2]]
    ensures Row(m, 2) == [m[2], m[3], m[0], m[1]]
    ensures Row(m, 3) == [m[3], m[2], m[1], m[0]]
  {
    hide Row, IndexXor;
    Orders();
    Rows2(m[..2]);
    Rows2(m[2..]);
    RowBlocks(m, 0, 2);
    RowBlocks(m, 1, 2);
  }

  lemma Rows8(m: seq<bv64>)
    requires |m| == 8 && IsOrder(8)
    ensures Row(m, 0) == [m[0], m[1], m[2], m[3], m[4], m[5], m[6], m[7]]
    ensures Row(m, 1) == [m[1], m[0], m[3], m[2], m[5], m[4], m[7], m[6]]
    ensures Row(m, 2) == [m[2], m[3], m[0], m[1], m[6], m[7], m[4], m[5]]
    ensures Row(m, 3) == [m[3], m[2], m[1], m[0], m[7], m[6], m[5], m[4]]
    ensures Row(m, 4) == [m[4], m[5], m[6], m[7], m[0], m[1], m[2], m[3]]
    ensures Row(m, 5) == [m[5], m[4], m[7], m[6], m[1], m[0], m[3], m[2]]
    ensures Row(m, 6) == [m[6], m[7], m[4], m[5], m[2], m[3], m[0], m[1]]
    ensures Row(m, 7) == [m[7], m[6], m[5], m[4], m[3], m[2], m[1], m[0]]
  {
    hide Row, IndexXor;
    Orders();
    Rows4(m[..4]);
    Rows4(m[4..]);
    RowBlocks(m, 0, 4);
    RowBlocks(m, 1, 4);
    RowBlocks(m, 2, 4);
    RowBlocks(m, 3, 4);
  }

  lemma Rows16(m: seq<bv64>)
    requires |m| == 16 && IsOrder(16)
    ensures Row(m, 0) == [m[0], m[1], m[2], m[3], m[4], m[5], m[6], m[7], m[8], m[9], m[10], m[11], m[12], m[13], m[14], m[15]]
    ensures Row(m, 1) == [m[1], m[0], m[3], m[2], m[5], m[4], m[7], m[6], m[9], m[8], m[11], m[10], m[13], m[12], m[15], m[14]]
    ensures Row(m, 2) == [m[2], m[3], m[0], m[1], m[6], m[7], m[4], m[5], m[10], m[11], m[8], m[9], m[14], m[15], m[12], m[13]]
    ensures Row(m, 3) == [m[3], m[2], m[1], m[0], m[7], m[6], m[5], m[4], m[11], m[10], m[9], m[8], m[15], m[14], m[13], m[12]]
    ensures Row(m, 4) == [m[4], m[5], m[6], m[7], m[0], m[1], m[2], m[3], m[12], m[13], m[14], m[15], m[8], m[9], m[10], m[11]]
    ensures Row(m, 5) == [m[5], m[4], m[7], m[6], m[1], m[0], m[3], m[2], m[13], m[12], m[15], m[14], m[9], m[8], m[11], m[10]]
    ensures Row(m, 6) == [m[6], m[7], m[4], m[5], m[2], m[3], m[0], m[1], m[14], m[15], m[12], m[13], m[10], m[11], m[8], m[9]]
    ensures Row(m, 7) == [m[7], m[6], m[5], m[4], m[3], m[2], m[1], m[0], m[15], m[14], m[13], m[12], m[11], m[10], m[9], m[8]]
    ensures Row(m, 8) == [m[8], m[9], m[10], m[11], m[12], m[13], m[14], m[15], m[0], m[1], m[2], m[3], m[4], m[5], m[6], m[7]]
    ensures Row(m, 9) == [m[9], m[8], m[11], m[10], m[13], m[12], m[15], m[14], m[1], m[0], m[3], m[2], m[5], m[4], m[7], m[6]]
    ensures Row(m, 10) == [m[10], m[11], m[8], m[9], m[14], m[15], m[12], m[13], m[2], m[3], m[0], m[1], m[6], m[7], m[4], m[5]]
    ensures Row(m, 11) == [m[11], m[10], m[9], m[8], m[15], m[14], m[13], m[12], m[3], m[2], m[1], m[0], m[7], m[6], m[5], m[4]]
    ensures Row(m, 12) == [m[12], m[13], m[14], m[15], m[8], m[9], m[10], m[11], m[4], m[5], m[6], m[7], m[0], m[1], m[2], m[3]]
    ensures Row(m, 13) == [m[13], m[12], m[15], m[14], m[9], m[8], m[11], m[10], m[5], m[4], m[7], m[6], m[1], m[0], m[3], m[2]]
    ensures Row(m, 14) == [m[14], m[15], m[12], m[13], m[10], m[11], m[8], m[9], m[6], m[7], m[4], m[5], m[2], m[3], m[0], m[1]]
    ensures Row(m, 15) == [m[15], m[14], m[13], m[12], m[11], m[10], m[9], m[8], m[7], m[6], m[5], m[4], m[3], m[2], m[1], m[0]]
  {
    hide Row, IndexXor;
    Orders();
    Rows8(m[..8]);
    Rows8(m[8..]);
    RowBlocks(m, 0, 8);
    RowBlocks(m, 1, 8);
    RowBlocks(m, 2, 8);
    RowBlocks(m, 3, 8);
    RowBlocks(m, 4, 8);
    RowBlocks(m, 5, 8);
    RowBlocks(m, 6, 8);
    RowBlocks(m, 7, 8);
  }

  // The build-time check: the matrix written down is the one that row 0 generates.
  lemma MatrixIsHadamard(h: nat, i: nat)
    requires ValidHeight(h) && i < h
    ensures Matrix(h)[i] == Row(Generator(h), i)
  {
    hide Row, IndexXor;
    var m := Generator(h);
    if h == 4 {
      Rows4(m);
    } else if h == 8 {
      Rows8(m);
    } else {
      Rows16(m);
    }
  }

  lemma FoldStep(m: seq<bv64>, n: seq<bv64>)
    requires |m| == 2 * |n| && IsOrder(|m|) && IsOrder(|n|)
    requires forall i :: 0 <= i < |n| ==> n[i] == Xor(m[i], m[i + |n|])
    ensures XorFold(m) == XorFold(n)
  {
    hide Xor;
    assert XorCells(m[..|n|], m[|n|..]) == n;
  }

  lemma Fold4()
    ensures IsOrder(4) && XorFold(MDS_4[0]) == 1
  {
    hide XorFold;
    Orders();
    FoldStep(MDS_4[0], [5, 4]);
    FoldStep([5, 4], [1]);
    FoldOne(1);
  }

  lemma Fold8()
    ensures IsOrder(8) && XorFold(MDS_8[0]) == 1
  {
    hide XorFold;
    Orders();
    FoldStep(MDS_8[0], [5, 8, 10, 6]);
    FoldStep([5, 8, 10, 6], [15, 14]);
    FoldStep([15, 14], [1]);
    FoldOne(1);
  }

  lemma Fold16()
    ensures IsOrder(16) && XorFold(MDS_16[0]) == 1
  {
    hide XorFold;
    Orders();
    Fold16Halves();
    Fold16Quarters();
    FoldStep([12, 227, 193, 47], [205, 204]);
    FoldStep([205, 204], [1]);
    FoldOne(1);
  }

  lemma Fold16Quarters()
    requires IsOrder(4) && IsOrder(8)
    ensures XorFold([4, 130, 5, 26, 8, 97, 196, 53]) == XorFold([12, 227, 193, 47])
  {
    hide XorFold;
    FoldStep([4, 130, 5, 26, 8, 97, 196, 53], [12, 227, 193, 47]);
  }

  lemma Fold16Halves()
    requires IsOrder(8) && IsOrder(16)
    ensures XorFold(MDS_16[0]) == XorFold([4, 130, 5, 26, 8, 97, 196, 53])
  {
    hide XorFold;
    FoldStep(MDS_16[0], [4, 130, 5, 26, 8, 97, 196, 53]);
  }

  lemma FoldOne(v: bv64)
    ensures XorFold([v]) == v
  {}

  // The other build-time check: every generating row sums to one.
  lemma GeneratorSumsToOne(h: nat)
    requires ValidHeight(h)
    ensures XorFold(Generator(h)) == 1
  {
    hide XorFold;
    Fold4();
    Fold8();
    Fold16();
  }

  // The product of the matrix with a column, as the definition states it.
  function MixColumn(h: nat, x: seq<bv64>): (y: seq<bv64>)
    requires ValidHeight(h) && |x| == h
    ensures |y| == h
  {
    seq(h, r requires 0 <= r < h => Dot(Matrix(h)[r], x))
  }

  lemma MixColumnIsProduct(h: nat, x: seq<bv64>)
    requires ValidHeight(h) && |x| == h
    ensures MixColumn(h, x) == Product(Generator(h), x)
  {
    hide Product, Dot, Row, Generator, Matrix;
    forall r | 0 <= r < h ensures MixColumn(h, x)[r] == Product(Generator(h), x)[r] {
      MatrixIsHadamard(h, r);
      ProductIsDot(Generator(h), x, r);
    }
  }

  // Applying the diffusion matrix twice restores the column, at every supported height.
  lemma MixColumnInvolution(h: nat, x: seq<bv64>)
    requires ValidHeight(h) && |x| == h
    ensures MixColumn(h, MixColumn(h, x)) == x
  {
    hide Product, MixColumn, Generator, XorFold;
    MixColumnIsProduct(h, x);
    MixColumnIsProduct(h, MixColumn(h, x));
    GeneratorSumsToOne(h);
    Involution(Generator(h), x);
  }

  // ----- how one cell spreads -----

  // A column with v on top and zeros below.
  function Single(h: nat, v: bv64): (x: seq<bv64>)
    requires h > 0
    ensures |x| == h
  {
    seq(h, i => if i == 0 then v else 0)
  }

  lemma {:induction false} DotSingle(r: seq<bv64>, x: seq<bv64>)
    requires |r| == |x| > 0 && forall i :: 0 < i < |x| ==> x[i] == 0
    ensures Dot(r, x) == Mul(r[0], x[0])
  {
    hide Xor, Mul;
    var n := |r| - 1;
    if n == 0 {
      DotNothing(r[..0], x[..0]);
      XorZero(Mul(r[0], x[0]));
    } else {
      DotSingle(r[..n], x[..n]);
      MulZero(r[n]);
      XorZero(Mul(r[0], x[0]));
    }
  }

  lemma DotNothing(r: seq<bv64>, x: seq<bv64>)
    requires r == [] && x == []
    ensures Dot(r, x) == 0
  {}

  // The multiples of the top cell that each height's matrix puts into the rows.
  lemma SingleSpreads(h: nat, v: bv64, i: nat)
    requires ValidHeight(h) && i < h
    ensures h == 4 ==> MixColumn(h, Single(h, v))[i] == Mul([1, 2, 4, 6][i], v)
    ensures h == 8 ==> MixColumn(h, Single(h, v))[i] == Mul([1, 2, 3, 8, 4, 10, 9, 14][i], v)
    ensures h == 16 ==>
      MixColumn(h, Single(h, v))[i] == Mul([1, 2, 3, 8, 4, 32, 64, 16, 5, 128, 6, 18, 12, 65, 132, 37][i], v)
  {
    hide Mul, Dot, Matrix;
    DotSingle(Matrix(h)[i], Single(h, v));
    FirstColumn(h, i);
  }

  lemma FirstColumn(h: nat, i: nat)
    requires ValidHeight(h) && i < h
    ensures h == 4 ==> Matrix(h)[i][0] == [1, 2, 4, 6][i]
    ensures h == 8 ==> Matrix(h)[i][0] == [1, 2, 3, 8, 4, 10, 9, 14][i]
    ensures h == 16 ==> Matrix(h)[i][0] == [1, 2, 3, 8, 4, 32, 64, 16, 5, 128, 6, 18, 12, 65, 132, 37][i]
  {
    if h == 4 { Column4(i); } else if h == 8 { Column8(i); } else { Column16(i); }
  }

  lemma Column4(i: nat)
    requires i < 4
    ensures MDS_4[i][0] == [1, 2, 4, 6][i]
  {}

  lemma Column8(i: nat)
    requires i < 8
    ensures MDS_8[i][0] == [1, 2, 3, 8, 4, 10, 9, 14][i]
  {}

  lemma Column16(i: nat)
    requires i < 16
    ensures MDS_16[i][0] == [1, 2, 3, 8, 4, 32, 64, 16, 5, 128, 6, 18, 12, 65, 132, 37][i]
  {}
}
