/** Hadamard matrices over GF(2^64): M[i][j] = m[i xor j]. A matrix of order 2n is
    [[A, B], [B, A]] with A and B of order n, and every block is a polynomial in multiplication
    by x, so all blocks commute. Linearity, commutation and the square follow by recursion on
    that block shape; `ProductIsDot` ties the shape back to the index formula. */
module Hadamard {
  import opened Bits
  import opened Field

  predicate IsOrder(n: nat) {
    n == 1 || (n > 1 && n % 2 == 0 && IsOrder(n / 2))
  }

  // The product of the Hadamard matrix generated by m with the column x.
  function Product(m: seq<bv64>, x: seq<bv64>): (y: seq<bv64>)
    requires |m| == |x| && IsOrder(|m|)
    ensures |y| == |m|
    decreases |m|
  {
    if |m| == 1 then [Mul(m[0], x[0])]
    else
      var h := |m| / 2;
      XorCells(Product(m[..h], x[..h]), Product(m[h..], x[h..]))
      + XorCells(Product(m[h..], x[..h]), Product(m[..h], x[h..]))
  }

  function XorFold(m: seq<bv64>): bv64
    requires IsOrder(|m|)
    decreases |m|
  {
    if |m| == 1 then m[0]
    else XorFold(XorCells(m[..|m| / 2], m[|m| / 2..]))
  }

  // ----- the group of columns -----

  lemma SeqSwap(a: seq<bv64>, b: seq<bv64>, c: seq<bv64>, d: seq<bv64>)
    requires |a| == |b| == |c| == |d|
    ensures XorCells(XorCells(a, b), XorCells(c, d)) == XorCells(XorCells(a, c), XorCells(b, d))
  {
    hide Xor;
    forall i | 0 <= i < |a|
      ensures XorCells(XorCells(a, b), XorCells(c, d))[i] == XorCells(XorCells(a, c), XorCells(b, d))[i]
    {
      XorSwap(a[i], b[i], c[i], d[i]);
    }
  }

  lemma SeqComm(a: seq<bv64>, b: seq<bv64>)
    requires |a| == |b|
    ensures XorCells(a, b) == XorCells(b, a)
  {
    hide Xor;
    forall i | 0 <= i < |a| ensures XorCells(a, b)[i] == XorCells(b, a)[i] {
      XorComm(a[i], b[i]);
    }
  }

  // A sum in which one column occurs twice.
  lemma SeqPair(a: seq<bv64>, b: seq<bv64>, c: seq<bv64>)
    requires |a| == |b| == |c|
    ensures XorCells(XorCells(a, b), XorCells(c, b)) == XorCells(a, c)
  {
    hide Xor;
    forall i | 0 <= i < |a|
      ensures XorCells(XorCells(a, b), XorCells(c, b))[i] == XorCells(a, c)[i]
    {
      XorSwap(a[i], b[i], c[i], b[i]);
      XorZero(b[i]);
      XorZero(Xor(a[i], c[i]));
    }
  }

  lemma SeqHalves(x: seq<bv64>, y: seq<bv64>, h: nat)
    requires h <= |x| == |y|
    ensures XorCells(x, y)[..h] == XorCells(x[..h], y[..h])
    ensures XorCells(x, y)[h..] == XorCells(x[h..], y[h..])
  {
    hide Xor;
  }

  lemma ProductOne(m: seq<bv64>, x: seq<bv64>)
    requires |m| == |x| == 1
    ensures Product(m, x) == [Mul(m[0], x[0])]
  {}

  // The two halves of a product of order 2h.
  lemma ProductHalves(m: seq<bv64>, x: seq<bv64>, h: nat)
    requires |m| == |x| == 2 * h && IsOrder(|m|) && IsOrder(h)
    ensures Product(m, x)[..h] == XorCells(Product(m[..h], x[..h]), Product(m[h..], x[h..]))
    ensures Product(m, x)[h..] == XorCells(Product(m[h..], x[..h]), Product(m[..h], x[h..]))
  {
    hide Xor, Mul;
  }

  lemma FromHalves(x: seq<bv64>, y: seq<bv64>, h: nat)
    requires h <= |x| == |y|
    requires x[..h] == y[..h] && x[h..] == y[h..]
    ensures x == y
  {
    assert x == x[..h] + x[h..];
    assert y == y[..h] + y[h..];
  }

  // ----- linearity, commutation, square -----

  lemma {:induction false} ProductXor(m: seq<bv64>, x: seq<bv64>, y: seq<bv64>)
    requires |m| == |x| == |y| && IsOrder(|m|)
    ensures Product(m, XorCells(x, y)) == XorCells(Product(m, x), Product(m, y))
    decreases |m|
  {
    hide Xor, Mul;
    if |m| == 1 {
      MulXor(m[0], x[0], y[0]);
    } else {
      var h := |m| / 2;
      hide Product, XorCells;
      var a, b, p, q, r, s := m[..h], m[h..], x[..h], x[h..], y[..h], y[h..];
      ProductHalves(m, x, h);
      ProductHalves(m, y, h);
      ProductHalves(m, XorCells(x, y), h);
      SeqHalves(x, y, h);
      SeqHalves(Product(m, x), Product(m, y), h);
      ProductXor(a, p, r);
      ProductXor(b, q, s);
      ProductXor(b, p, r);
      ProductXor(a, q, s);
      SeqSwap(Product(a, p), Product(a, r), Product(b, q), Product(b, s));
      SeqSwap(Product(b, p), Product(b, r), Product(a, q), Product(a, s));
      FromHalves(Product(m, XorCells(x, y)), XorCells(Product(m, x), Product(m, y)), h);
    }
  }

  lemma {:induction false} ProductSum(m: seq<bv64>, n: seq<bv64>, x: seq<bv64>)
    requires |m| == |n| == |x| && IsOrder(|m|)
    ensures Product(XorCells(m, n), x) == XorCells(Product(m, x), Product(n, x))
    decreases |m|
  {
    hide Xor, Mul;
    if |m| == 1 {
      MulSum(m[0], n[0], x[0]);
    } else {
      var h := |m| / 2;
      hide Product, XorCells;
      var a, b, c, d, p, q := m[..h], m[h..], n[..h], n[h..], x[..h], x[h..];
      ProductHalves(m, x, h);
      ProductHalves(n, x, h);
      ProductHalves(XorCells(m, n), x, h);
      SeqHalves(m, n, h);
      SeqHalves(Product(m, x), Product(n, x), h);
      ProductSum(a, c, p);
      ProductSum(b, d, q);
      ProductSum(b, d, p);
      ProductSum(a, c, q);
      SeqSwap(Product(a, p), Product(c, p), Product(b, q), Product(d, q));
      SeqSwap(Product(b, p), Product(d, p), Product(a, q), Product(c, q));
      FromHalves(Product(XorCells(m, n), x), XorCells(Product(m, x), Product(n, x)), h);
    }
  }

  lemma {:induction false} ProductCommute(m: seq<bv64>, n: seq<bv64>, x: seq<bv64>)
    requires |m| == |n| == |x| && IsOrder(|m|)
    ensures Product(m, Product(n, x)) == Product(n, Product(m, x))
    decreases |m|, 0
  {
    hide Xor, Mul, Product, XorCells, Diagonal, Cross;
    if |m| == 1 {
      ProductOne(m, x);
      ProductOne(n, x);
      ProductOne(m, Product(n, x));
      ProductOne(n, Product(m, x));
      MulCommute(m[0], n[0], x[0]);
    } else {
      var h := |m| / 2;
      BlockRow(m, n, x, h);
      BlockRow(n, m, x, h);
      BlocksCommute(m[..h], n[..h], m[h..], n[h..], x[..h]);
      BlocksCommute(m[..h], n[..h], m[h..], n[h..], x[h..]);
      FromHalves(Product(m, Product(n, x)), Product(n, Product(m, x)), h);
    }
  }

  lemma {:induction false} BlocksCommute(a: seq<bv64>, c: seq<bv64>, b: seq<bv64>, d: seq<bv64>, v: seq<bv64>)
    requires |a| == |b| == |c| == |d| == |v| && IsOrder(|a|)
    ensures Diagonal(a, c, b, d, v) == Diagonal(c, a, d, b, v)
    ensures Cross(a, c, b, d, v) == Cross(c, a, d, b, v)
    decreases |a|, 1
  {
    hide Xor, Mul, Product, XorCells;
    ProductCommute(a, c, v);
    ProductCommute(b, d, v);
    ProductCommute(a, d, v);
    ProductCommute(b, c, v);
    SeqComm(Product(a, Product(d, v)), Product(b, Product(c, v)));
  }

  // Both halves of M * N * x, with the terms in p first and the terms in q second.
  lemma BlockRow(m: seq<bv64>, n: seq<bv64>, x: seq<bv64>, h: nat)
    requires |m| == |n| == |x| == 2 * h && IsOrder(|m|) && IsOrder(h)
    ensures Product(m, Product(n, x))[..h]
            == XorCells(Diagonal(m[..h], n[..h], m[h..], n[h..], x[..h]), Cross(m[..h], n[..h], m[h..], n[h..], x[h..]))
    ensures Product(m, Product(n, x))[h..]
            == XorCells(Cross(m[..h], n[..h], m[h..], n[h..], x[..h]), Diagonal(m[..h], n[..h], m[h..], n[h..], x[h..]))
  {
    hide Xor, Mul, Product, XorCells;
    var a, b, c, d, p, q := m[..h], m[h..], n[..h], n[h..], x[..h], x[h..];
    ProductHalves(n, x, h);
    ProductHalves(m, Product(n, x), h);
    ProductXor(a, Product(c, p), Product(d, q));
    ProductXor(b, Product(d, p), Product(c, q));
    ProductXor(b, Product(c, p), Product(d, q));
    ProductXor(a, Product(d, p), Product(c, q));
    SeqSwap(Product(a, Product(c, p)), Product(a, Product(d, q)), Product(b, Product(d, p)), Product(b, Product(c, q)));
    SeqSwap(Product(b, Product(c, p)), Product(b, Product(d, q)), Product(a, Product(d, p)), Product(a, Product(c, q)));
    SeqComm(Product(b, Product(c, p)), Product(a, Product(d, p)));
    SeqComm(Product(b, Product(d, q)), Product(a, Product(c, q)));
  }

  // (AC + BD) v and (AD + BC) v
  function Diagonal(a: seq<bv64>, c: seq<bv64>, b: seq<bv64>, d: seq<bv64>, v: seq<bv64>): (r: seq<bv64>)
    requires |a| == |b| == |c| == |d| == |v| && IsOrder(|a|)
    ensures |r| == |v|
  {
    XorCells(Product(a, Product(c, v)), Product(b, Product(d, v)))
  }

  function Cross(a: seq<bv64>, c: seq<bv64>, b: seq<bv64>, d: seq<bv64>, v: seq<bv64>): (r: seq<bv64>)
    requires |a| == |b| == |c| == |d| == |v| && IsOrder(|a|)
    ensures |r| == |v|
  {
    XorCells(Product(a, Product(d, v)), Product(b, Product(c, v)))
  }

  function Scale(s: bv64, x: seq<bv64>): (y: seq<bv64>)
    ensures |y| == |x|
  {
    seq(|x|, i requires 0 <= i < |x| => Mul(s, Mul(s, x[i])))
  }

  // M * M is the square of the row sum, times the identity: every cross term occurs twice.
  lemma {:induction false} ProductSquare(m: seq<bv64>, x: seq<bv64>)
    requires |m| == |x| && IsOrder(|m|)
    ensures Product(m, Product(m, x)) == Scale(XorFold(m), x)
    decreases |m|
  {
    hide Xor, Mul;
    if |m| == 1 {
    } else {
      var h := |m| / 2;
      var a, b, p, q := m[..h], m[h..], x[..h], x[h..];
      var sum := XorCells(a, b);
      assert Scale(XorFold(m), x) == Scale(XorFold(sum), p) + Scale(XorFold(sum), q);
      hide Product, XorCells, Scale, XorFold, Diagonal, Cross;
      BlockRow(m, m, x, h);
      SquareOfSum(a, b, p);
      SquareOfSum(a, b, q);
      ProductSquare(sum, p);
      ProductSquare(sum, q);
      FromHalves(Product(m, Product(m, x)), Scale(XorFold(m), x), h);
    }
  }

  // (AA + BB) v = (A + B)(A + B) v, and AB + BA contributes nothing.
  lemma SquareOfSum(a: seq<bv64>, b: seq<bv64>, v: seq<bv64>)
    requires |a| == |b| == |v| && IsOrder(|a|)
    ensures Diagonal(a, a, b, b, v) == Product(XorCells(a, b), Product(XorCells(a, b), v))
    ensures forall u :: |u| == |v| ==> XorCells(u, Cross(a, a, b, b, v)) == u && XorCells(Cross(a, a, b, b, v), u) == u
  {
    hide Xor, Mul, Product;
    var w := Product(XorCells(a, b), v);
    ProductSum(a, b, v);
    ProductSum(a, b, w);
    ProductXor(a, Product(a, v), Product(b, v));
    ProductXor(b, Product(a, v), Product(b, v));
    ProductCommute(a, b, v);
    SeqComm(Product(b, Product(a, v)), Product(b, Product(b, v)));
    SeqPair(Product(a, Product(a, v)), Product(a, Product(b, v)), Product(b, Product(b, v)));
    forall u: seq<bv64> | |u| == |v|
      ensures XorCells(u, Cross(a, a, b, b, v)) == u && XorCells(Cross(a, a, b, b, v), u) == u
    {
      forall i | 0 <= i < |u| ensures XorCells(u, Cross(a, a, b, b, v))[i] == u[i] && XorCells(Cross(a, a, b, b, v), u)[i] == u[i] {
        XorZero(Product(a, Product(b, v))[i]);
        XorZero(u[i]);
      }
    }
  }

  // A Hadamard matrix whose row sums to one is its own inverse.
  lemma Involution(m: seq<bv64>, x: seq<bv64>)
    requires |m| == |x| && IsOrder(|m|)
    requires XorFold(m) == 1
    ensures Product(m, Product(m, x)) == x
  {
    hide Mul, Product, XorFold;
    ProductSquare(m, x);
    forall i | 0 <= i < |x| ensures Scale(1, x)[i] == x[i] {
      MulOne(x[i]);
    }
  }

  // ----- the index formula -----

  // Bitwise xor of two indices.
  function IndexXor(i: nat, k: nat): nat {
    if i == 0 && k == 0 then 0
    else (if i % 2 != k % 2 then 1 else 0) + 2 * IndexXor(i / 2, k / 2)
  }

  lemma {:induction false} IndexXorHigh(i: nat, k: nat, h: nat)
    requires IsOrder(h) && i < h && k < h
    ensures IndexXor(i, k) < h
    ensures IndexXor(i + h, k) == IndexXor(i, k + h) == IndexXor(i, k) + h
    ensures IndexXor(i + h, k + h) == IndexXor(i, k)
    decreases h
  {
    if h == 1 {
      assert IndexXor(1, 1) == 2 * IndexXor(0, 0);
      assert IndexXor(1, 0) == 1 + 2 * IndexXor(0, 0);
      assert IndexXor(0, 1) == 1 + 2 * IndexXor(0, 0);
    } else {
      IndexXorHigh(i / 2, k / 2, h / 2);
      assert (i + h) / 2 == i / 2 + h / 2 && (k + h) / 2 == k / 2 + h / 2;
      assert (i + h) % 2 == i % 2 && (k + h) % 2 == k % 2;
    }
  }

  // Entry (i, k) of the Hadamard matrix generated by m.
  function Entry(m: seq<bv64>, i: nat, k: nat): bv64
    requires IsOrder(|m|) && i < |m| && k < |m|
  {
    IndexXorHigh(i, k, |m|);
    m[IndexXor(i, k)]
  }

  // Row i of it.
  function Row(m: seq<bv64>, i: nat): (r: seq<bv64>)
    requires IsOrder(|m|) && i < |m|
    ensures |r| == |m|
  {
    seq(|m|, k requires 0 <= k < |m| => Entry(m, i, k))
  }

  // The sum of r[k] * x[k].
  function Dot(r: seq<bv64>, x: seq<bv64>): bv64
    requires |r| == |x|
  {
    if |r| == 0 then 0
    else Xor(Dot(r[..|r| - 1], x[..|x| - 1]), Mul(r[|r| - 1], x[|x| - 1]))
  }

  lemma {:induction false} DotSplit(r: seq<bv64>, x: seq<bv64>, s: seq<bv64>, y: seq<bv64>)
    requires |r| == |x| && |s| == |y|
    ensures Dot(r + s, x + y) == Xor(Dot(r, x), Dot(s, y))
    decreases |s|
  {
    hide Xor, Mul;
    if |s| == 0 {
      assert r + s == r && x + y == x;
      XorZero(Dot(r, x));
    } else {
      var n := |s| - 1;
      assert (r + s)[..|r| + n] == r + s[..n];
      assert (x + y)[..|r| + n] == x + y[..n];
      DotSplit(r, x, s[..n], y[..n]);
      XorAssoc(Dot(r, x), Dot(s[..n], y[..n]), Mul(s[n], y[n]));
    }
  }

  // The rows of [[A, B], [B, A]].
  lemma RowBlocks(m: seq<bv64>, i: nat, h: nat)
    requires |m| == 2 * h && IsOrder(|m|) && IsOrder(h) && i < h
    ensures Row(m, i) == Row(m[..h], i) + Row(m[h..], i)
    ensures Row(m, i + h) == Row(m[h..], i) + Row(m[..h], i)
  {
    hide IndexXor, Entry;
    var low, high := Row(m[..h], i), Row(m[h..], i);
    forall k | 0 <= k < h
      ensures Row(m, i)[k] == low[k] && Row(m, i)[k + h] == high[k]
      ensures Row(m, i + h)[k] == high[k] && Row(m, i + h)[k + h] == low[k]
    {
      EntryBlocks(m, i, k, h);
    }
    Halves(Row(m, i), low, high);
    Halves(Row(m, i + h), high, low);
  }

  lemma EntryBlocks(m: seq<bv64>, i: nat, k: nat, h: nat)
    requires |m| == 2 * h && IsOrder(|m|) && IsOrder(h) && i < h && k < h
    ensures Entry(m, i, k) == Entry(m[..h], i, k)
    ensures Entry(m, i, k + h) == Entry(m[h..], i, k)
    ensures Entry(m, i + h, k) == Entry(m[h..], i, k)
    ensures Entry(m, i + h, k + h) == Entry(m[..h], i, k)
  {
    hide IndexXor;
    IndexXorHigh(i, k, h);
  }

  lemma Halves(x: seq<bv64>, a: seq<bv64>, b: seq<bv64>)
    requires |a| == |b| && |x| == 2 * |a|
    requires forall k :: 0 <= k < |a| ==> x[k] == a[k] && x[k + |a|] == b[k]
    ensures x == a + b
  {
    forall k | 0 <= k < |x| ensures x[k] == (a + b)[k] {
      if k >= |a| {
        var j := k - |a|;
        assert x[j + |a|] == b[j];
      }
    }
  }

  lemma DotOne(m: seq<bv64>, x: seq<bv64>)
    requires |m| == |x| == 1
    ensures Dot(Row(m, 0), x) == Mul(m[0], x[0])
  {
    hide Xor, Mul;
    assert IndexXor(0, 0) == 0;
    assert Row(m, 0) == [m[0]];
    assert Dot([m[0]], x) == Xor(Dot([], []), Mul(m[0], x[0])) by { assert [m[0]][..0] == [] && x[..0] == []; }
    XorZero(Mul(m[0], x[0]));
  }

  // The block recursion computes the matrix product with entries m[i xor k].
  lemma {:induction false} ProductIsDot(m: seq<bv64>, x: seq<bv64>, i: nat)
    requires |m| == |x| && IsOrder(|m|) && i < |m|
    ensures Product(m, x)[i] == Dot(Row(m, i), x)
    decreases |m|
  {
    hide Xor, Mul, Product, Row, Dot;
    if |m| == 1 {
      ProductOne(m, x);
      DotOne(m, x);
    } else {
      var h := |m| / 2;
      var j := if i < h then i else i - h;
      ProductHalves(m, x, h);
      RowBlocks(m, j, h);
      assert x == x[..h] + x[h..];
      if i < h {
        assert Product(m, x)[i] == Product(m, x)[..h][j];
        ProductIsDot(m[..h], x[..h], j);
        ProductIsDot(m[h..], x[h..], j);
        DotSplit(Row(m[..h], j), x[..h], Row(m[h..], j), x[h..]);
      } else {
        assert Product(m, x)[i] == Product(m, x)[h..][j];
        ProductIsDot(m[h..], x[..h], j);
        ProductIsDot(m[..h], x[h..], j);
        DotSplit(Row(m[h..], j), x[..h], Row(m[..h], j), x[h..]);
      }
    }
  }
}
