/** The REX grid (core/src/grid.rs). `Layers` gives the meaning of each layer on the flat run of
    cells and its inverse; `Grids` is the in-place code, method by method, against it. */
module Layers {
  import opened Bits
  import opened Mds
  import opened Rows
  import Arx

  predicate ValidDims(w: nat, h: nat) {
    w >= 2 && ValidHeight(h)
  }

  lemma AreaPositive(w: nat, h: nat)
    requires ValidDims(w, h)
    ensures Area(w, h) > 0
  {
    AreaGrows(w, 0, h);
  }

  function Subcells(g: seq<bv64>, round: bv64): (r: seq<bv64>)
    ensures |r| == |g|
  {
    seq(|g|, i requires 0 <= i < |g| => Arx.Cell(g[i], round))
  }

  function Unsubcells(g: seq<bv64>, round: bv64): (r: seq<bv64>)
    ensures |r| == |g|
  {
    seq(|g|, i requires 0 <= i < |g| => Arx.InverseCell(g[i], round))
  }

  lemma SubcellsUndone(g: seq<bv64>, round: bv64)
    ensures Unsubcells(Subcells(g, round), round) == g
    ensures Subcells(Unsubcells(g, round), round) == g
  {
    hide Arx.Cell, Arx.InverseCell;
    forall i | 0 <= i < |g|
      ensures Unsubcells(Subcells(g, round), round)[i] == g[i]
      ensures Subcells(Unsubcells(g, round), round)[i] == g[i]
    {
      Arx.CellInverse(g[i], round);
    }
  }

  lemma XorCellsUndone(g: seq<bv64>, k: seq<bv64>)
    requires |g| == |k|
    ensures XorCells(XorCells(g, k), k) == g
  {
    hide Xor;
    forall i | 0 <= i < |g| ensures XorCells(XorCells(g, k), k)[i] == g[i] {
      XorCancel(g[i], k[i]);
    }
  }

  // One shift per row of a round key.
  function Shifts(g: seq<bv64>, w: nat, h: nat): (s: seq<nat>)
    requires w > 0 && |g| == Area(w, h)
    ensures |s| == h && forall i :: 0 <= i < h ==> s[i] < w
    decreases h
  {
    if h == 0 then []
    else
      var last := g[Area(w, h - 1)..];
      ShiftAmountInRange(last);
      Shifts(g[..Area(w, h - 1)], w, h - 1) + [ShiftAmount(last)]
  }

  // Row r of a round key gives the amount for row r.
  lemma {:induction false} ShiftsAt(g: seq<bv64>, w: nat, h: nat, r: nat)
    requires w > 0 && |g| == Area(w, h) && r < h
    ensures Area(w, r) + w <= |g| && Shifts(g, w, h)[r] == ShiftAmount(g[Area(w, r)..Area(w, r) + w])
    decreases h
  {
    hide ShiftAmount;
    AreaGrows(w, r, h);
    var n := Area(w, h - 1);
    if r < h - 1 {
      AreaGrows(w, r, h - 1);
      ShiftsAt(g[..n], w, h - 1, r);
      assert g[..n][Area(w, r)..Area(w, r) + w] == g[Area(w, r)..Area(w, r) + w];
    } else {
      assert g[n..] == g[n..n + w];
    }
  }

  lemma ShiftsStart(g: seq<bv64>, w: nat)
    requires w > 0
    ensures Area(w, 0) == 0 && Shifts(g[..0], w, 0) == []
  {}

  lemma ShiftsStep(g: seq<bv64>, w: nat, r: nat)
    requires w > 0 && Area(w, r) + w <= |g|
    ensures Area(w, r + 1) == Area(w, r) + w
    ensures Shifts(g[..Area(w, r + 1)], w, r + 1)
            == Shifts(g[..Area(w, r)], w, r) + [ShiftAmount(g[Area(w, r)..Area(w, r) + w])]
  {
    hide ShiftAmount;
    var taken := g[..Area(w, r + 1)];
    assert taken[..Area(w, r)] == g[..Area(w, r)];
    assert taken[Area(w, r)..] == g[Area(w, r)..Area(w, r) + w];
  }
}

/** The grid after its first r rows were rotated. */
module PartlyShifted {
  import opened Rows

  ghost function RowsShifted(g: seq<bv64>, w: nat, s: seq<nat>, r: nat): (x: seq<bv64>)
    requires |g| == Area(w, |s|) && Amounts(w, s) && r <= |s|
    ensures |x| == |g|
  {
    AreaAtMost(w, r, |s|);
    Rows.ShiftRows(g[..Area(w, r)], w, s[..r]) + g[Area(w, r)..]
  }

  lemma AreaAtMost(w: nat, r: nat, n: nat)
    requires r <= n
    ensures Area(w, r) <= Area(w, n)
  {
    if r < n { AreaGrows(w, r, n); }
  }

  lemma RowsShiftedStart(g: seq<bv64>, w: nat, s: seq<nat>)
    requires |g| == Area(w, |s|) && Amounts(w, s)
    ensures RowsShifted(g, w, s, 0) == g
  {}

  lemma RowsShiftedEnd(g: seq<bv64>, w: nat, s: seq<nat>)
    requires |g| == Area(w, |s|) && Amounts(w, s)
    ensures RowsShifted(g, w, s, |s|) == Rows.ShiftRows(g, w, s)
  {
    assert g[..|g|] == g && s[..|s|] == s;
  }

  // Rotating row r in place takes one partly shifted grid to the next.
  lemma RowsShiftedStep(g: seq<bv64>, w: nat, s: seq<nat>, r: nat)
    requires |g| == Area(w, |s|) && Amounts(w, s) && r < |s|
    requires Area(w, r) + w <= |g|
    ensures var x, base := RowsShifted(g, w, s, r), Area(w, r);
            RowsShifted(g, w, s, r + 1) == x[..base] + Rotate(x[base..base + w], s[r]) + x[base + w..]
  {
    hide Rotate, Rows.ShiftRows;
    var x, base := RowsShifted(g, w, s, r), Area(w, r);
    var row := g[base..base + w];
    assert x[base..base + w] == row;
    assert x[base + w..] == g[base + w..];
    assert x[..base] == Rows.ShiftRows(g[..base], w, s[..r]);
    assert g[..base + w] == g[..base] + row;
    assert s[..r + 1][..r] == s[..r];
    LastRow(g[..base], row, w, s[..r + 1]);
  }
}

/** Positions in the flat run of cells, and why a lane computes its columns. */
module Positions {
  import opened Hadamard
  import opened Mds
  import opened Rows
  import opened Columns
  import opened Lanes

  // Where cell (r, c) is stored.
  function At(w: nat, h: nat, r: nat, c: nat): (i: nat)
    requires r < h && c < w
    ensures i < Area(w, h)
  {
    AreaGrows(w, r, h);
    Area(w, r) + c
  }

  lemma AtInjective(w: nat, h: nat, r: nat, c: nat, r': nat, c': nat)
    requires r < h && c < w && r' < h && c' < w
    requires At(w, h, r, c) == At(w, h, r', c')
    ensures r == r' && c == c'
  {
    if r < r' { AreaGrows(w, r, r'); }
    if r' < r { AreaGrows(w, r', r); }
  }

  lemma SameColumn(x: seq<bv64>, y: seq<bv64>, w: nat, h: nat, c: nat)
    requires |x| == |y| == Area(w, h) && c < w
    requires forall r :: 0 <= r < h ==> x[At(w, h, r, c)] == y[At(w, h, r, c)]
    ensures Column(x, w, h, c) == Column(y, w, h, c)
  {
    forall r | 0 <= r < h ensures Column(x, w, h, c)[r] == Column(y, w, h, c)[r] {
      assert x[At(w, h, r, c)] == y[At(w, h, r, c)];
    }
  }

  lemma SameCells(x: seq<bv64>, y: seq<bv64>, w: nat, h: nat)
    requires |x| == |y| == Area(w, h)
    requires forall r, c :: 0 <= r < h && 0 <= c < w ==> x[At(w, h, r, c)] == y[At(w, h, r, c)]
    ensures x == y
  {
    hide Column, At;
    forall c | 0 <= c < w ensures Column(x, w, h, c) == Column(y, w, h, c) {
      SameColumn(x, y, w, h, c);
    }
    ColumnsDetermine(x, y, w, h);
  }

  // A lane that holds column c of the grid mixes it into column c of the result.
  lemma LaneIsColumn(g: seq<bv64>, w: nat, h: nat, r: nat, c: nat, x: seq<seq<bv64>>, j: nat)
    requires ValidHeight(h) && |g| == Area(w, h) && r < h && c < w && j < LANE
    requires |x| == h && IsLanes(x) && LaneColumn(x, j) == Column(g, w, h, c)
    ensures DotLane(Row(Generator(h), r), x)[j] == MixColumns(g, w, h)[At(w, h, r, c)]
  {
    hide DotLane, Dot, Row, Column, LaneColumn, Generator, Matrix, MixedRows;
    DotLaneAt(Row(Generator(h), r), x, j);
    MatrixIsHadamard(h, r);
    MixedAt(g, w, h, h, r, c);
  }
}

module Grids {
  import opened Bits
  import opened Bytes
  import opened Hadamard
  import opened Mds
  import opened Rows
  import opened Columns
  import opened Lanes
  import opened Layers
  import opened Positions
  import opened PartlyShifted
  import Limbs
  import Arx

  datatype GridError =
    | InvalidDimensions(width: nat, height: nat)
    | InvalidByteLength(expectedMod: nat, actualLen: nat)
    | InvalidKeyLength(expectedLen: nat, actualLen: nat)
    | InvalidUnicode

  datatype Result<T> = Ok(value: T) | Err(error: GridError)

  // The first n cells of a flat vector, padded with zeros.
  function FlatCells(vec: seq<bv64>, n: nat): (c: seq<bv64>)
    ensures |c| == n
  {
    seq(n, i requires 0 <= i => if i < |vec| then vec[i] else 0)
  }

  class Grid {
    const w: nat
    const h: nat
    const cells: array<bv64>

    ghost predicate Valid() {
      ValidDims(w, h) && cells.Length == Area(w, h)
    }

    constructor (w: nat, h: nat)
      requires ValidDims(w, h)
      ensures Valid() && fresh(cells) && this.w == w && this.h == h
      ensures forall i :: 0 <= i < cells.Length ==> cells[i] == 0
    {
      this.w, this.h := w, h;
      cells := new bv64[Area(w, h)](i => 0);
    }

    // Fills the grid row by row; surplus cells are ignored and missing ones stay zero.
    constructor FromFlat(w: nat, h: nat, vec: seq<bv64>)
      requires ValidDims(w, h)
      ensures Valid() && fresh(cells) && this.w == w && this.h == h
      ensures cells[..] == FlatCells(vec, Area(w, h))
    {
      this.w, this.h := w, h;
      cells := new bv64[Area(w, h)](i => if 0 <= i < |vec| then vec[i] else 0);
    }

    // A copy, as `clone` makes it.
    constructor Clone(source: Grid)
      requires source.Valid()
      ensures Valid() && fresh(cells) && w == source.w && h == source.h
      ensures cells[..] == source.cells[..]
    {
      w, h := source.w, source.h;
      cells := new bv64[source.cells.Length](i requires 0 <= i < source.cells.Length reads source.cells => source.cells[i]);
    }

    method XorGrids(key: Grid)
      requires Valid() && key.Valid() && key.w == w && key.h == h && key.cells != cells
      modifies cells
      ensures cells[..] == XorCells(old(cells[..]), key.cells[..])
    {
      hide Xor;
      ghost var start := cells[..];
      for i := 0 to cells.Length
        invariant forall j :: 0 <= j < i ==> cells[j] == Xor(start[j], key.cells[j])
        invariant forall j :: i <= j < cells.Length ==> cells[j] == start[j]
      {
        cells[i] := Xor(cells[i], key.cells[i]);
      }
    }

    method Subcell(round: nat)
      requires Valid()
      modifies cells
      ensures cells[..] == Subcells(old(cells[..]), Cell(round))
    {
      hide Arx.Cell, Cell;
      ghost var start := cells[..];
      for i := 0 to cells.Length
        invariant forall j :: 0 <= j < i ==> cells[j] == Arx.Cell(start[j], Cell(round))
        invariant forall j :: i <= j < cells.Length ==> cells[j] == start[j]
      {
        cells[i] := Arx.ComputeCell(cells[i], Cell(round));
      }
    }

    // XOR of one row.
    method FoldRow(r: nat) returns (fold: bv64)
      requires Valid() && r < h && Area(w, r) + w <= cells.Length
      ensures fold == Fold(cells[Area(w, r)..Area(w, r) + w])
    {
      hide Xor;
      ghost var row := cells[Area(w, r)..Area(w, r) + w];
      fold := 0;
      for c := 0 to w
        invariant fold == Fold(row[..c])
      {
        assert row[..c + 1][..c] == row[..c];
        fold := Xor(fold, cells[Area(w, r) + c]);
      }
      assert row[..w] == row;
    }

    // XOR-folds every row and scales the fold into [0, w).
    method PrecalculateShifts() returns (shifts: seq<nat>)
      requires Valid()
      ensures shifts == Shifts(cells[..], w, h)
    {
      hide U64, Fold, Shifts, Area;
      ShiftsStart(cells[..], w);
      shifts := [];
      for r := 0 to h
        invariant Area(w, r) <= cells.Length
        invariant shifts == Shifts(cells[..Area(w, r)], w, r)
      {
        AreaGrows(w, r, h);
        ShiftsStep(cells[..], w, r);
        var fold := FoldRow(r);
        shifts := shifts + [U64(fold) * w / TWO_64];
      }
      assert cells[..cells.Length] == cells[..];
    }

    // Overwrites the w cells from base on.
    method WriteRow(base: nat, row: seq<bv64>)
      requires Valid() && |row| == w && base + w <= cells.Length
      modifies cells
      ensures cells[..] == old(cells[..base]) + row + old(cells[base + w..])
    {
      ghost var start := cells[..];
      for c := 0 to w
        invariant forall i :: 0 <= i < cells.Length ==>
          cells[i] == if base <= i < base + c then row[i - base] else start[i]
      {
        cells[base + c] := row[c];
      }
    }

    // Rotates one row in place, with the barrel shifter of the constant-time build.
    method RotateRow(base: nat, shift: nat)
      requires Valid() && base + w <= cells.Length && shift < w
      modifies cells
      ensures cells[..] == old(cells[..base]) + Rotate(old(cells[base..base + w]), shift) + old(cells[base + w..])
    {
      hide Rotate;
      var turned := BarrelRotate(cells[base..base + w], shift);
      WriteRow(base, turned);
    }

    // Rotates row after row.
    method ShiftRows(shifts: seq<nat>)
      requires Valid() && |shifts| == h && forall i :: 0 <= i < h ==> shifts[i] < w
      modifies cells
      ensures cells[..] == Rows.ShiftRows(old(cells[..]), w, shifts)
    {
      hide Rotate, Rows.ShiftRows, Area, RowsShifted;
      ghost var start := cells[..];
      RowsShiftedStart(start, w, shifts);
      for r := 0 to h
        invariant cells[..] == RowsShifted(start, w, shifts, r)
      {
        AreaGrows(w, r, h);
        RowsShiftedStep(start, w, shifts, r);
        RotateRow(Area(w, r), shifts[r]);
      }
      RowsShiftedEnd(start, w, shifts);
    }

    // A lane of columns starting at col; columns past the width are zero.
    method Gather(col: nat, take: nat) returns (x: seq<seq<bv64>>)
      requires Valid() && take <= LANE && col + take <= w
      ensures |x| == h && IsLanes(x)
      ensures forall c :: 0 <= c < take ==> LaneColumn(x, c) == Column(cells[..], w, h, col + c)
    {
      x := [];
      for k := 0 to h
        invariant |x| == k && IsLanes(x)
        invariant forall i, c :: 0 <= i < k && 0 <= c < take ==> x[i][c] == Column(cells[..], w, h, col + c)[i]
      {
        AreaGrows(w, k, h);
        var lane := ZeroLane();
        for c := 0 to take
          invariant |lane| == LANE
          invariant forall j :: 0 <= j < c ==> lane[j] == cells[Area(w, k) + col + j]
        {
          lane := lane[c := cells[Area(w, k) + col + c]];
        }
        x := x + [lane];
      }
    }

    // Writes a lane of columns back.
    method Scatter(out: seq<seq<bv64>>, col: nat, take: nat)
      requires Valid() && take <= LANE && col + take <= w
      requires |out| == h && IsLanes(out)
      modifies cells
      ensures forall r, c :: 0 <= r < h && 0 <= c < w ==>
        At(w, h, r, c) < cells.Length
        && cells[At(w, h, r, c)] == if col <= c < col + take then out[r][c - col] else old(cells[At(w, h, r, c)])
    {
      ghost var start := cells[..];
      for k := 0 to h
        invariant forall r, c :: 0 <= r < h && 0 <= c < w ==>
          cells[At(w, h, r, c)] == if r < k && col <= c < col + take then out[r][c - col] else start[At(w, h, r, c)]
      {
        for j := 0 to take
          invariant forall r, c :: 0 <= r < h && 0 <= c < w ==>
            cells[At(w, h, r, c)]
            == if (r < k && col <= c < col + take) || (r == k && col <= c < col + j) then out[r][c - col] else start[At(w, h, r, c)]
        {
          AreaGrows(w, k, h);
          forall r, c | 0 <= r < h && 0 <= c < w && At(w, h, r, c) == At(w, h, k, col + j) ensures r == k && c == col + j {
            AtInjective(w, h, r, c, k, col + j);
          }
          cells[At(w, h, k, col + j)] := out[k][j];
        }
      }
    }

    // Four columns at a time.
    method MixColumns()
      requires Valid()
      modifies cells
      ensures cells[..] == Columns.MixColumns(old(cells[..]), w, h)
    {
      hide Columns.MixColumns, MixColumn, Generator, Column, LaneColumn, At, DotLane, Row;
      ghost var start := cells[..];
      ghost var goal := Columns.MixColumns(start, w, h);
      var col := 0;
      while col < w
        invariant col <= w
        invariant forall r, c :: 0 <= r < h && 0 <= c < w ==>
          cells[At(w, h, r, c)] == if c < col then goal[At(w, h, r, c)] else start[At(w, h, r, c)]
      {
        var take := if w - col < LANE then w - col else LANE;
        ghost var before := cells[..];
        var x := Gather(col, take);
        var out := MixHadamard(Generator(h), x);
        forall r, c | 0 <= r < h && col <= c < col + take ensures out[r][c - col] == goal[At(w, h, r, c)] {
          SameColumn(before, start, w, h, c);
          LaneIsColumn(start, w, h, r, c, x, c - col);
        }
        Scatter(out[..], col, take);
        col := col + take;
      }
      SameCells(cells[..], goal, w, h);
    }

    method Increment(amount: nat)
      requires Valid() && amount < TWO_64
      modifies cells
      ensures cells[..] == Limbs.Increment(old(cells[..]), amount)
    {
      Limbs.IncrementFullScan(cells, amount);
    }
  }

  // The cells of every grid.
  ghost function Cells(grids: seq<Grid>): (c: seq<seq<bv64>>)
    reads set g | g in grids :: g.cells
    ensures |c| == |grids|
  {
    seq(|grids|, i requires 0 <= i < |grids| reads (set g | g in grids :: g.cells) => grids[i].cells[..])
  }
}
