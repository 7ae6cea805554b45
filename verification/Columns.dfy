/** The diffusion layer over a whole grid (core/src/grid.rs, mix_columns). `MixColumns` is the
    definition: every column times the matrix. `Lanes` is what the code runs: a lane of four
    columns at a time, no field product, only xtime chains and xors. */
module Columns {
  import opened Mds
  import opened Rows

  function Column(g: seq<bv64>, w: nat, h: nat, c: nat): (x: seq<bv64>)
    requires |g| == Area(w, h) && c < w
    ensures |x| == h
  {
    seq(h, k requires 0 <= k < h => (AreaGrows(w, k, h); g[Area(w, k) + c]))
  }

  function MixedRow(g: seq<bv64>, w: nat, h: nat, r: nat): (row: seq<bv64>)
    requires ValidHeight(h) && |g| == Area(w, h) && r < h
    ensures |row| == w
  {
    seq(w, c requires 0 <= c < w => MixColumn(h, Column(g, w, h, c))[r])
  }

  function MixedRows(g: seq<bv64>, w: nat, h: nat, n: nat): (m: seq<bv64>)
    requires ValidHeight(h) && |g| == Area(w, h) && n <= h
    ensures |m| == Area(w, n)
  {
    if n == 0 then [] else MixedRows(g, w, h, n - 1) + MixedRow(g, w, h, n - 1)
  }

  // Every column of the grid times the matrix.
  function MixColumns(g: seq<bv64>, w: nat, h: nat): (m: seq<bv64>)
    requires ValidHeight(h) && |g| == Area(w, h)
    ensures |m| == |g|
  {
    MixedRows(g, w, h, h)
  }

  lemma {:induction false} MixedAt(g: seq<bv64>, w: nat, h: nat, n: nat, r: nat, c: nat)
    requires ValidHeight(h) && |g| == Area(w, h) && r < n <= h && c < w
    ensures Area(w, r) + c < Area(w, n)
    ensures MixedRows(g, w, h, n)[Area(w, r) + c] == MixColumn(h, Column(g, w, h, c))[r]
    decreases n
  {
    hide MixColumn, Column;
    AreaGrows(w, r, n);
    if r < n - 1 {
      MixedAt(g, w, h, n - 1, r, c);
    }
  }

  lemma ColumnOfMixed(g: seq<bv64>, w: nat, h: nat, c: nat)
    requires ValidHeight(h) && |g| == Area(w, h) && c < w
    ensures Column(MixColumns(g, w, h), w, h, c) == MixColumn(h, Column(g, w, h, c))
  {
    hide MixColumn, MixedRows;
    forall r | 0 <= r < h
      ensures Column(MixColumns(g, w, h), w, h, c)[r] == MixColumn(h, Column(g, w, h, c))[r]
    {
      MixedAt(g, w, h, h, r, c);
    }
  }

  // A grid is determined by its columns.
  lemma {:induction false} ColumnsDetermine(x: seq<bv64>, y: seq<bv64>, w: nat, h: nat)
    requires |x| == |y| == Area(w, h)
    requires forall c :: 0 <= c < w ==> Column(x, w, h, c) == Column(y, w, h, c)
    ensures x == y
    decreases h
  {
    hide Column;
    if h > 0 {
      var n, k := Area(w, h - 1), h - 1;
      var x', y' := x[..n], y[..n];
      forall c | 0 <= c < w ensures Column(x', w, k, c) == Column(y', w, k, c) {
        ColumnPrefix(x, w, h, c);
        ColumnPrefix(y, w, h, c);
      }
      ColumnsDetermine(x', y', w, k);
      forall i | 0 <= i < |x| ensures x[i] == y[i] {
        if i < n {
          assert x[..n][i] == y[..n][i];
        } else {
          ColumnPrefix(x, w, h, i - n);
          ColumnPrefix(y, w, h, i - n);
        }
      }
    }
  }

  lemma ColumnPrefix(x: seq<bv64>, w: nat, h: nat, c: nat)
    requires |x| == Area(w, h) && h > 0 && c < w
    ensures Column(x[..Area(w, h - 1)], w, h - 1, c) == Column(x, w, h, c)[..h - 1]
    ensures Column(x, w, h, c)[h - 1] == x[Area(w, h - 1) + c]
  {
    forall k | 0 <= k < h - 1
      ensures Column(x[..Area(w, h - 1)], w, h - 1, c)[k] == Column(x, w, h, c)[k]
    {
      AreaGrows(w, k, h - 1);
    }
  }

  // Applying the layer twice restores the grid.
  lemma MixColumnsInvolution(g: seq<bv64>, w: nat, h: nat)
    requires ValidHeight(h) && |g| == Area(w, h)
    ensures MixColumns(MixColumns(g, w, h), w, h) == g
  {
    hide MixColumns, MixColumn, Column;
    var m := MixColumns(g, w, h);
    forall c | 0 <= c < w ensures Column(MixColumns(m, w, h), w, h, c) == Column(g, w, h, c) {
      ColumnOfMixed(g, w, h, c);
      ColumnOfMixed(m, w, h, c);
      MixColumnInvolution(h, Column(g, w, h, c));
    }
    ColumnsDetermine(MixColumns(m, w, h), g, w, h);
  }
}

module Lanes {
  import opened Bits
  import opened Field
  import opened Hadamard

  const LANE: nat := 4

  function ZeroLane(): (v: seq<bv64>)
    ensures |v| == LANE
  {
    [0, 0, 0, 0]
  }

  function XtimeLane(v: seq<bv64>): (r: seq<bv64>)
    ensures |r| == |v|
  {
    seq(|v|, i requires 0 <= i < |v| => Xtime(v[i]))
  }

  function XPowLane(e: nat, v: seq<bv64>): (r: seq<bv64>)
    ensures |r| == |v|
  {
    seq(|v|, i requires 0 <= i < |v| => XPow(e, v[i]))
  }

  function MulLowLane(c: bv64, v: seq<bv64>, n: nat): (r: seq<bv64>)
    ensures |r| == |v|
  {
    seq(|v|, i requires 0 <= i < |v| => MulLow(c, v[i], n))
  }

  function MulLane(c: bv64, v: seq<bv64>): (r: seq<bv64>)
    ensures |r| == |v|
  {
    seq(|v|, i requires 0 <= i < |v| => Mul(c, v[i]))
  }

  predicate IsLanes(x: seq<seq<bv64>>) {
    forall k :: 0 <= k < |x| ==> |x[k]| == LANE
  }

  // One output row: the sum of r[k] * x[k], four columns at once.
  function DotLane(r: seq<bv64>, x: seq<seq<bv64>>): (v: seq<bv64>)
    requires |r| == |x| && IsLanes(x)
    ensures |v| == LANE
  {
    if |r| == 0 then ZeroLane()
    else XorCells(DotLane(r[..|r| - 1], x[..|x| - 1]), MulLane(r[|r| - 1], x[|x| - 1]))
  }

  // Column c of a lane of columns.
  function LaneColumn(x: seq<seq<bv64>>, c: nat): (v: seq<bv64>)
    requires IsLanes(x) && c < LANE
    ensures |v| == |x|
  {
    seq(|x|, k requires 0 <= k < |x| => x[k][c])
  }

  lemma {:induction false} DotLaneAt(r: seq<bv64>, x: seq<seq<bv64>>, c: nat)
    requires |r| == |x| && IsLanes(x) && c < LANE
    ensures DotLane(r, x)[c] == Dot(r, LaneColumn(x, c))
  {
    hide Xor, Mul;
    if |r| > 0 {
      var n := |r| - 1;
      DotLaneAt(r[..n], x[..n], c);
      assert LaneColumn(x, c)[..n] == LaneColumn(x[..n], c);
    }
  }

  // ----- one step of the xtime chain -----

  lemma ChainStep(c: bv64, v: seq<bv64>, e: nat)
    ensures Bit(c, e) ==> MulLowLane(c, v, e + 1) == XorCells(MulLowLane(c, v, e), XPowLane(e, v))
    ensures !Bit(c, e) ==> MulLowLane(c, v, e + 1) == MulLowLane(c, v, e)
    ensures XtimeLane(XPowLane(e, v)) == XPowLane(e + 1, v)
  {
    hide Xor, Bit, Xtime;
    forall i | 0 <= i < |v|
      ensures MulLow(c, v[i], e + 1) == if Bit(c, e) then Xor(MulLow(c, v[i], e), XPow(e, v[i])) else MulLow(c, v[i], e)
    {
      XorZero(MulLow(c, v[i], e));
    }
  }

  lemma ChainStart(c: bv64, v: seq<bv64>, out: seq<bv64>)
    requires |v| == |out|
    ensures XorCells(out, MulLowLane(c, v, 0)) == out
  {
    hide Xor;
    forall i | 0 <= i < |out| ensures XorCells(out, MulLowLane(c, v, 0))[i] == out[i] {
      XorZero(out[i]);
    }
  }

  lemma LaneAssoc(a: seq<bv64>, b: seq<bv64>, c: seq<bv64>)
    requires |a| == |b| == |c|
    ensures XorCells(XorCells(a, b), c) == XorCells(a, XorCells(b, c))
  {
    hide Xor;
    forall i | 0 <= i < |a| ensures XorCells(XorCells(a, b), c)[i] == XorCells(a, XorCells(b, c))[i] {
      XorAssoc(a[i], b[i], c[i]);
    }
  }

  // ----- the highest power any coefficient uses -----

  function Or(a: bv64, b: bv64): bv64 { a | b }

  function OrAll(m: seq<bv64>): bv64 {
    if |m| == 0 then 0 else Or(OrAll(m[..|m| - 1]), m[|m| - 1])
  }

  // Every bit of a is a bit of b.
  predicate Inside(a: bv64, b: bv64) { a & b == a }

  lemma InsideLeft(a: bv64, b: bv64, c: bv64)
    requires Inside(a, b)
    ensures Inside(a, Or(b, c))
  {}

  lemma InsideRight(a: bv64, b: bv64)
    ensures Inside(a, Or(b, a))
  {}

  lemma {:induction false} InsideOr(m: seq<bv64>, j: nat)
    requires j < |m|
    ensures Inside(m[j], OrAll(m))
  {
    hide Inside, Or;
    var n := |m| - 1;
    if j < n {
      InsideOr(m[..n], j);
      InsideLeft(m[j], OrAll(m[..n]), m[n]);
    } else {
      InsideRight(m[n], OrAll(m[..n]));
    }
  }

  // A chain as long as the longest coefficient computes the whole product.
  lemma ChainEnd(c: bv64, bound: bv64, v: seq<bv64>)
    requires Inside(c, bound)
    ensures MulLowLane(c, v, BitLength(bound)) == MulLane(c, v)
  {
    hide Mul, MulLow, BitLength;
    var n := BitLength(bound) + BitLength(c);
    forall i | 0 <= i < |v| ensures MulLow(c, v[i], BitLength(bound)) == Mul(c, v[i]) {
      MulIsMulLow(c, v[i], n);
      MulLowEnough(c, bound, v[i], n);
    }
  }

  // mix_terms with its loop over the output rows rolled up again: keep multiplying the running
  // lane by x, adding it to the output rows whose matrix entry has that bit.
  method MixTerms(m: seq<bv64>, exp: nat, x: seq<seq<bv64>>, out: array<seq<bv64>>, k: nat)
    requires IsOrder(|m|) && |x| == |m| == out.Length && IsLanes(x) && k < |m|
    requires forall i :: 0 <= i < |m| ==> out[i] == Partial(m, x, i, k, 0)
    modifies out
    ensures forall i :: 0 <= i < |m| ==> out[i] == Partial(m, x, i, k, exp)
  {
    hide XorCells, Bit, Entry, XPowLane, XtimeLane, IsOrder, Partial;
    var n := |m|;
    var s := x[k];
    LaneStart(x[k]);
    for e := 0 to exp
      invariant s == XPowLane(if e == 0 then 0 else e - 1, x[k])
      invariant forall i :: 0 <= i < n ==> out[i] == Partial(m, x, i, k, e)
    {
      if e > 0 {
        ChainStep(0, x[k], e - 1);
        s := XtimeLane(s);
      }
      for i := 0 to n
        invariant forall j :: 0 <= j < i ==> out[j] == Partial(m, x, j, k, e + 1)
        invariant forall j :: i <= j < n ==> out[j] == Partial(m, x, j, k, e)
      {
        PartialStep(m, x, i, k, e);
        if Bit(Entry(m, i, k), e) {
          out[i] := XorCells(out[i], s);
        }
      }
    }
  }

  // mix_hadamard with its loop over the input rows rolled up again.
  method MixHadamard(m: seq<bv64>, x: seq<seq<bv64>>) returns (out: array<seq<bv64>>)
    requires IsOrder(|m|) && |x| == |m| && IsLanes(x)
    ensures fresh(out) && out.Length == |m|
    ensures forall i :: 0 <= i < |m| ==> out[i] == DotLane(Row(m, i), x)
  {
    hide XorCells, BitLength, Entry, OrAll, IsOrder, Partial, Row;
    var n := |m|;
    var exp := BitLength(OrAll(m));
    out := new seq<bv64>[n](i => ZeroLane());
    for k := 0 to n
      invariant forall i :: 0 <= i < n ==> out[i] == DotLane(Row(m, i)[..k], x[..k])
    {
      forall i | 0 <= i < n ensures out[i] == Partial(m, x, i, k, 0) {
        PartialStart(m, x, i, k);
      }
      MixTerms(m, exp, x, out, k);
      forall i | 0 <= i < n ensures out[i] == DotLane(Row(m, i)[..k + 1], x[..k + 1]) {
        PartialEnd(m, x, i, k);
      }
    }
    forall i | 0 <= i < n ensures out[i] == DotLane(Row(m, i), x) {
      assert Row(m, i)[..n] == Row(m, i) && x[..n] == x;
    }
  }

  // Output row i after k input rows and e powers of the next one.
  ghost function Partial(m: seq<bv64>, x: seq<seq<bv64>>, i: nat, k: nat, e: nat): (v: seq<bv64>)
    requires IsOrder(|m|) && |x| == |m| && IsLanes(x) && i < |m| && k < |m|
    ensures |v| == LANE
  {
    XorCells(DotLane(Row(m, i)[..k], x[..k]), MulLowLane(Entry(m, i, k), x[k], e))
  }

  lemma PartialStart(m: seq<bv64>, x: seq<seq<bv64>>, i: nat, k: nat)
    requires IsOrder(|m|) && |x| == |m| && IsLanes(x) && i < |m| && k < |m|
    ensures Partial(m, x, i, k, 0) == DotLane(Row(m, i)[..k], x[..k])
  {
    hide XorCells, MulLowLane, DotLane, Entry, Row;
    ChainStart(Entry(m, i, k), x[k], DotLane(Row(m, i)[..k], x[..k]));
  }

  lemma LaneStart(v: seq<bv64>)
    ensures XPowLane(0, v) == v
  {}

  lemma PartialStep(m: seq<bv64>, x: seq<seq<bv64>>, i: nat, k: nat, e: nat)
    requires IsOrder(|m|) && |x| == |m| && IsLanes(x) && i < |m| && k < |m|
    ensures Partial(m, x, i, k, e + 1)
            == if Bit(Entry(m, i, k), e) then XorCells(Partial(m, x, i, k, e), XPowLane(e, x[k])) else Partial(m, x, i, k, e)
  {
    hide XorCells, Bit, IndexXor, Entry, XPowLane, MulLowLane, DotLane, IsOrder;
    ChainStep(Entry(m, i, k), x[k], e);
    LaneAssoc(DotLane(Row(m, i)[..k], x[..k]), MulLowLane(Entry(m, i, k), x[k], e), XPowLane(e, x[k]));
  }

  lemma PartialEnd(m: seq<bv64>, x: seq<seq<bv64>>, i: nat, k: nat)
    requires IsOrder(|m|) && |x| == |m| && IsLanes(x) && i < |m| && k < |m|
    ensures Partial(m, x, i, k, BitLength(OrAll(m))) == DotLane(Row(m, i)[..k + 1], x[..k + 1])
  {
    hide XorCells, Bit, BitLength, IndexXor, MulLowLane, MulLane, OrAll, Inside, Entry;
    EntryInside(m, i, k);
    ChainEnd(Entry(m, i, k), OrAll(m), x[k]);
    DotLaneLast(Row(m, i), x, k);
  }

  lemma EntryInside(m: seq<bv64>, i: nat, k: nat)
    requires IsOrder(|m|) && i < |m| && k < |m|
    ensures Inside(Entry(m, i, k), OrAll(m))
  {
    hide Inside, OrAll, IndexXor;
    IndexXorHigh(i, k, |m|);
    InsideOr(m, IndexXor(i, k));
  }

  lemma DotLaneLast(r: seq<bv64>, x: seq<seq<bv64>>, k: nat)
    requires |r| == |x| && IsLanes(x) && k < |r|
    ensures DotLane(r[..k + 1], x[..k + 1]) == XorCells(DotLane(r[..k], x[..k]), MulLane(r[k], x[k]))
  {
    hide XorCells, MulLane;
    assert r[..k + 1][..k] == r[..k] && x[..k + 1][..k] == x[..k];
  }
}
