/** Keyed row rotation (core/src/grid.rs, precalculate_shifts and shift_rows). The constant-time
    build rotates with a masked barrel shifter; it has to agree with `rotate_left`. */
module Rows {
  import opened Bits
  import opened Bytes

  // rotate_left
  function Rotate(row: seq<bv64>, s: nat): (r: seq<bv64>)
    requires s <= |row|
    ensures |r| == |row|
  {
    row[s..] + row[..s]
  }

  lemma RotateTwice(row: seq<bv64>, a: nat, b: nat)
    requires a + b <= |row|
    ensures Rotate(Rotate(row, a), b) == Rotate(row, a + b)
  {}

  lemma RotateBack(row: seq<bv64>, s: nat)
    requires s <= |row|
    ensures Rotate(Rotate(row, s), |row| - s) == row
    ensures Rotate(Rotate(row, |row| - s), s) == row
  {
    RotateTwice(row, s, |row| - s);
    RotateTwice(row, |row| - s, s);
  }

  // The number of cells in n rows, which is also where row n starts: the grid is stored row
  // after row.
  function Area(w: nat, n: nat): nat {
    if n == 0 then 0 else Area(w, n - 1) + w
  }

  lemma {:induction false} AreaIsProduct(w: nat, n: nat)
    ensures Area(w, n) == w * n
  {
    if n > 0 {
      AreaIsProduct(w, n - 1);
      assert w * n == w * (n - 1) + w;
    }
  }

  lemma {:induction false} AreaGrows(w: nat, m: nat, n: nat)
    requires m < n
    ensures Area(w, m) + w <= Area(w, n)
  {
    if m < n - 1 { AreaGrows(w, m, n - 1); }
  }

  predicate Amounts(w: nat, shifts: seq<nat>) {
    forall i :: 0 <= i < |shifts| ==> shifts[i] <= w
  }

  // Every row rotated by its own amount.
  function ShiftRows(g: seq<bv64>, w: nat, shifts: seq<nat>): (r: seq<bv64>)
    requires |g| == Area(w, |shifts|) && Amounts(w, shifts)
    ensures |r| == |g|
    decreases |shifts|
  {
    if |shifts| == 0 then []
    else
      var n := |shifts| - 1;
      ShiftRows(g[..Area(w, n)], w, shifts[..n]) + Rotate(g[Area(w, n)..], shifts[n])
  }

  function Complement(w: nat, shifts: seq<nat>): (r: seq<nat>)
    requires Amounts(w, shifts)
    ensures |r| == |shifts| && Amounts(w, r)
  {
    seq(|shifts|, i requires 0 <= i < |shifts| => w - shifts[i])
  }

  // Two layers whose amounts cancel row by row restore the grid.
  lemma {:induction false} ShiftRowsCancel(g: seq<bv64>, w: nat, s: seq<nat>, c: seq<nat>)
    requires |s| == |c| && |g| == Area(w, |s|) && Amounts(w, s) && Amounts(w, c)
    requires forall i :: 0 <= i < |s| ==> c[i] == w - s[i]
    ensures ShiftRows(ShiftRows(g, w, s), w, c) == g
    decreases |s|
  {
    hide ShiftRows, Rotate;
    if |s| == 0 {
      EmptyGrid(g, w, s);
      EmptyGrid(g, w, c);
    } else {
      var n := |s| - 1;
      var init, last := g[..Area(w, n)], g[Area(w, n)..];
      assert g == init + last;
      LastRow(init, last, w, s);
      ShiftRowsCancel(init, w, s[..n], c[..n]);
      RotateBack(last, s[n]);
      LastRow(ShiftRows(init, w, s[..n]), Rotate(last, s[n]), w, c);
    }
  }

  lemma EmptyGrid(g: seq<bv64>, w: nat, s: seq<nat>)
    requires s == [] && g == []
    ensures ShiftRows(g, w, s) == []
  {}

  lemma LastRow(init: seq<bv64>, last: seq<bv64>, w: nat, s: seq<nat>)
    requires |s| > 0 && Amounts(w, s)
    requires |init| == Area(w, |s| - 1) && |last| == w
    ensures ShiftRows(init + last, w, s) == ShiftRows(init, w, s[..|s| - 1]) + Rotate(last, s[|s| - 1])
  {
    var g := init + last;
    assert g[..Area(w, |s| - 1)] == init && g[Area(w, |s| - 1)..] == last;
  }

  // Rotating by the complements undoes the layer, in either order.
  lemma ShiftRowsUndone(g: seq<bv64>, w: nat, shifts: seq<nat>)
    requires |g| == Area(w, |shifts|) && Amounts(w, shifts)
    ensures ShiftRows(ShiftRows(g, w, shifts), w, Complement(w, shifts)) == g
    ensures ShiftRows(ShiftRows(g, w, Complement(w, shifts)), w, shifts) == g
  {
    hide ShiftRows;
    ShiftRowsCancel(g, w, shifts, Complement(w, shifts));
    ShiftRowsCancel(g, w, Complement(w, shifts), shifts);
  }

  // Cell c of row r comes from s[r] columns further on, around the row.
  function Source(w: nat, s: nat, c: nat): nat
    requires s <= w && c < w
  {
    if c + s < w then c + s else c + s - w
  }

  lemma {:induction false} ShiftRowsAt(g: seq<bv64>, w: nat, s: seq<nat>, r: nat, c: nat)
    requires |g| == Area(w, |s|) && Amounts(w, s) && r < |s| && c < w
    ensures Area(w, r) + w <= |g|
    ensures ShiftRows(g, w, s)[Area(w, r) + c] == g[Area(w, r) + Source(w, s[r], c)]
    decreases |s|
  {
    hide ShiftRows, Rotate;
    AreaGrows(w, r, |s|);
    var n := |s| - 1;
    var init, last := g[..Area(w, n)], g[Area(w, n)..];
    assert g == init + last;
    LastRow(init, last, w, s);
    if r < n {
      AreaGrows(w, r, n);
      ShiftRowsAt(init, w, s[..n], r, c);
    } else {
      RotateAt(last, s[n]);
    }
  }

  // ----- the shift amounts -----

  function Fold(row: seq<bv64>): bv64 {
    if |row| == 0 then 0 else Xor(Fold(row[..|row| - 1]), row[|row| - 1])
  }

  // The row's fold times the width, divided by 2^64.
  function ShiftAmount(row: seq<bv64>): nat {
    U64(Fold(row)) * |row| / TWO_64
  }

  // The fold of zeros is zero, and changing one cell changes the fold by just that difference.
  lemma {:induction false} FoldZeros(row: seq<bv64>)
    requires forall i :: 0 <= i < |row| ==> row[i] == 0
    ensures Fold(row) == 0
  {
    hide Xor;
    if |row| > 0 {
      FoldZeros(row[..|row| - 1]);
      XorZero(0);
    }
  }

  lemma {:induction false} FoldChange(row: seq<bv64>, i: nat, v: bv64)
    requires i < |row|
    ensures Fold(row[i := v]) == Xor(Fold(row), Xor(row[i], v))
  {
    hide Xor;
    var n := |row| - 1;
    var init, next := row[..n], row[i := v];
    if i < n {
      FoldChange(init, i, v);
      assert next[..n] == init[i := v];
      XorAssoc(Fold(init), Xor(row[i], v), row[n]);
      XorComm(Xor(row[i], v), row[n]);
      XorAssoc(Fold(init), row[n], Xor(row[i], v));
    } else {
      assert next[..n] == init;
      XorAssoc(Fold(init), row[n], Xor(row[n], v));
      XorAssoc(row[n], row[n], v);
      XorZero(row[n]);
      XorZero(v);
    }
  }

  // The amount is fold times width over 2^64, rounded down.
  lemma ShiftAmountIsFloor(row: seq<bv64>)
    ensures ShiftAmount(row) * 0x1_0000_0000_0000_0000 <= U64(Fold(row)) * |row| < (ShiftAmount(row) + 1) * 0x1_0000_0000_0000_0000
  {
    hide Fold, U64;
  }

  lemma ShiftAmountInRange(row: seq<bv64>)
    requires |row| > 0
    ensures ShiftAmount(row) < |row|
  {
    hide Fold, U64;
    CellOfU64(Fold(row));
    HighHalf(U64(Fold(row)), |row|);
  }

  lemma HighHalf(x: nat, w: nat)
    requires x < TWO_64 && w > 0
    ensures x * w / TWO_64 < w
  {
    assert x * w < TWO_64 * w;
  }

  // ----- the barrel shifter -----

  // a when the bit is clear and b when it is set, without a branch.
  function Select(a: bv64, b: bv64, bit: bv64): bv64 {
    a ^ ((a ^ b) & (0 - bit))
  }

  lemma SelectEither(a: bv64, b: bv64, bit: bv64)
    requires bit == 0 || bit == 1
    ensures Select(a, b, bit) == if bit == 1 then b else a
  {
    SelectClear(a, b);
    SelectSet(a, b);
  }

  lemma SelectClear(a: bv64, b: bv64)
    ensures Select(a, b, 0) == a
  {}

  lemma SelectSet(a: bv64, b: bv64)
    ensures Select(a, b, 1) == b
  {}

  lemma Divided(n: nat, d: nat, q: nat, r: nat)
    requires r < d && n == q * d + r
    ensures n / d == q && n % d == r
  {
    var e, m := n / d, n % d;
    assert n == e * d + m;
    assert (e - q) * d == e * d - q * d == r - m;
    AtLeast(e - q, d);
    AtLeast(q - e, d);
    assert (q - e) * d == m - r;
  }

  lemma AtLeast(k: int, d: nat)
    requires d > 0
    ensures k >= 1 ==> k * d >= d
  {}

  // The low bits of a shift gain one bit per stage.
  lemma NextBit(shift: nat, stride: nat)
    requires stride > 0
    ensures shift % (2 * stride) == shift % stride + (if shift / stride % 2 == 1 then stride else 0)
    ensures shift % stride <= shift
  {
    var q, r := shift / stride, shift % stride;
    var b := q % 2;
    assert shift == q * stride + r;
    assert q == 2 * (q / 2) + b;
    assert q * stride == (q / 2) * (2 * stride) + b * stride;
    assert b * stride == if b == 1 then stride else 0;
    Divided(shift, 2 * stride, q / 2, b * stride + r);
  }

  // What a stage leaves of a row.
  function Staged(row: seq<bv64>, stride: nat, bit: bv64): (r: seq<bv64>)
    requires stride <= |row|
    ensures |r| == |row|
  {
    if bit == 1 then Rotate(row, stride) else row
  }

  lemma StagedAt(row: seq<bv64>, stride: nat, bit: bv64, j: nat)
    requires stride <= |row| && j < |row|
    requires bit == 0 || bit == 1
    ensures j < |row| - stride ==> Select(row[j], row[j + stride], bit) == Staged(row, stride, bit)[j]
    ensures j >= |row| - stride ==> Select(row[j], row[j - (|row| - stride)], bit) == Staged(row, stride, bit)[j]
  {
    hide Select, Rotate;
    RotateAt(row, stride);
    if j < |row| - stride {
      SelectEither(row[j], row[j + stride], bit);
    } else {
      SelectEither(row[j], row[j - (|row| - stride)], bit);
    }
  }

  // One stage of the shifter: below w - stride a cell comes from stride further on, above it from the front.
  method Stage(tmp: array<bv64>, stride: nat, bit: bv64) returns (rotated: array<bv64>)
    requires 0 < stride < tmp.Length
    requires bit == 0 || bit == 1
    ensures fresh(rotated) && rotated.Length == tmp.Length
    ensures rotated[..] == Staged(tmp[..], stride, bit)
  {
    hide Select, Staged;
    var w := tmp.Length;
    ghost var row := tmp[..];
    rotated := new bv64[w];
    var split := w - stride;
    for j := 0 to split
      invariant forall i :: 0 <= i < j ==> rotated[i] == Staged(row, stride, bit)[i]
    {
      StagedAt(row, stride, bit, j);
      rotated[j] := Select(tmp[j], tmp[j + stride], bit);
    }
    for j := split to w
      invariant forall i :: 0 <= i < j ==> rotated[i] == Staged(row, stride, bit)[i]
    {
      StagedAt(row, stride, bit, j);
      rotated[j] := Select(tmp[j], tmp[j - split], bit);
    }
  }

  lemma RotateAt(row: seq<bv64>, s: nat)
    requires s <= |row|
    ensures forall j :: 0 <= j < |row| - s ==> Rotate(row, s)[j] == row[j + s]
    ensures forall j :: |row| - s <= j < |row| ==> Rotate(row, s)[j] == row[j - (|row| - s)]
  {}

  // One row through every stage: after each, the row is rotated by the bits of the shift seen so
  // far. Holds for every width, power of two or not.
  method BarrelRotate(row: seq<bv64>, shift: nat) returns (r: seq<bv64>)
    requires shift < |row|
    ensures r == Rotate(row, shift)
  {
    hide Rotate;
    var w := |row|;
    var tmp := new bv64[w](i requires 0 <= i < w => row[i]);
    var stride := 1;
    RotateZero(row);
    assert tmp[..] == row;
    while stride < w
      invariant stride > 0
      invariant fresh(tmp) && tmp.Length == w
      invariant shift % stride <= shift
      invariant tmp[..] == Rotate(row, shift % stride)
      decreases w - stride
    {
      NextBit(shift, stride);
      NextBit(shift, 2 * stride);
      var bit: bv64 := if shift / stride % 2 == 1 then 1 else 0;
      if bit == 1 { RotateTwice(row, shift % stride, stride); }
      tmp := Stage(tmp, stride, bit);
      stride := 2 * stride;
    }
    Divided(shift, stride, 0, shift);
    r := tmp[..];
  }

  lemma RotateZero(row: seq<bv64>)
    ensures Rotate(row, 0) == row
  {}
}
