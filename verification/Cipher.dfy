/** The block cipher and its counter mode (core/src/crypto.rs). The round keys are an arbitrary
    schedule of at least two grids: how they are derived from a master key is not modelled. */
module Cipher {
  import opened Bits
  import opened Bytes
  import opened Rows
  import opened Columns
  import opened Layers
  import opened Limbs

  datatype Schedule = Schedule(w: nat, h: nat, keys: seq<seq<bv64>>, shifts: seq<seq<nat>>) {
    function GridArea(): nat { Area(w, h) }

    // At least two keys, and for every round between the outer two a shift below w per row.
    predicate Valid() {
      && ValidDims(w, h)
      && |keys| >= 2
      && (forall i :: 0 <= i < |keys| ==> |keys[i]| == Area(w, h))
      && |shifts| >= |keys| - 2
      && (forall i :: 0 <= i < |shifts| ==> RowShifts(w, h, shifts[i]))
    }
  }

  predicate RowShifts(w: nat, h: nat, s: seq<nat>) {
    |s| == h && forall r :: 0 <= r < h ==> s[r] < w
  }

  // Key addition, cell transform, row rotation, diffusion.
  function Round(s: Schedule, b: seq<bv64>, i: nat): (r: seq<bv64>)
    requires s.Valid() && |b| == s.GridArea() && i < |s.keys| - 2
    ensures |r| == |b|
  {
    var added := XorCells(b, s.keys[i + 1]);
    var mixed := Subcells(added, Cell(i));
    MixColumns(ShiftRows(mixed, s.w, s.shifts[i]), s.w, s.h)
  }

  function Unround(s: Schedule, b: seq<bv64>, i: nat): (r: seq<bv64>)
    requires s.Valid() && |b| == s.GridArea() && i < |s.keys| - 2
    ensures |r| == |b|
  {
    var rows := MixColumns(b, s.w, s.h);
    var mixed := ShiftRows(rows, s.w, Complement(s.w, s.shifts[i]));
    XorCells(Unsubcells(mixed, Cell(i)), s.keys[i + 1])
  }

  function Rounds(s: Schedule, b: seq<bv64>, n: nat): (r: seq<bv64>)
    requires s.Valid() && |b| == s.GridArea() && n <= |s.keys| - 2
    ensures |r| == |b|
  {
    if n == 0 then b else Round(s, Rounds(s, b, n - 1), n - 1)
  }

  function Unrounds(s: Schedule, b: seq<bv64>, n: nat): (r: seq<bv64>)
    requires s.Valid() && |b| == s.GridArea() && n <= |s.keys| - 2
    ensures |r| == |b|
    decreases n
  {
    if n == 0 then b else Unrounds(s, Unround(s, b, n - 1), n - 1)
  }

  // The block permutation: whitening, rounds, whitening.
  function Encipher(s: Schedule, b: seq<bv64>): (r: seq<bv64>)
    requires s.Valid() && |b| == s.GridArea()
    ensures |r| == |b|
  {
    XorCells(Rounds(s, XorCells(b, s.keys[0]), |s.keys| - 2), s.keys[|s.keys| - 1])
  }

  function Decipher(s: Schedule, b: seq<bv64>): (r: seq<bv64>)
    requires s.Valid() && |b| == s.GridArea()
    ensures |r| == |b|
  {
    XorCells(Unrounds(s, XorCells(b, s.keys[|s.keys| - 1]), |s.keys| - 2), s.keys[0])
  }

  // The keystream block of one counter value.
  function Keystream(s: Schedule, nonce: seq<bv64>, counter: nat): (k: seq<bv64>)
    requires s.Valid() && |nonce| == s.GridArea()
    ensures |k| == |nonce|
  {
    Encipher(s, Increment(nonce, counter))
  }

  // ----- the permutation -----

  lemma RoundUndone(s: Schedule, b: seq<bv64>, i: nat)
    requires s.Valid() && |b| == s.GridArea() && i < |s.keys| - 2
    ensures Unround(s, Round(s, b, i), i) == b
    ensures Round(s, Unround(s, b, i), i) == b
  {
    hide XorCells, Subcells, Unsubcells, Cell, Rows.ShiftRows, Columns.MixColumns, Complement;
    var key := s.keys[i + 1];
    var added := XorCells(b, key);
    var mixed := Subcells(added, Cell(i));
    var rows := ShiftRows(mixed, s.w, s.shifts[i]);
    MixColumnsInvolution(rows, s.w, s.h);
    ShiftRowsUndone(mixed, s.w, s.shifts[i]);
    SubcellsUndone(added, Cell(i));
    XorCellsUndone(b, key);
    var rows' := MixColumns(b, s.w, s.h);
    var mixed' := ShiftRows(rows', s.w, Complement(s.w, s.shifts[i]));
    XorCellsUndone(Unsubcells(mixed', Cell(i)), key);
    SubcellsUndone(mixed', Cell(i));
    ShiftRowsUndone(rows', s.w, s.shifts[i]);
    MixColumnsInvolution(b, s.w, s.h);
  }

  lemma {:induction false} RoundsUndone(s: Schedule, b: seq<bv64>, n: nat)
    requires s.Valid() && |b| == s.GridArea() && n <= |s.keys| - 2
    ensures Unrounds(s, Rounds(s, b, n), n) == b
    ensures Rounds(s, Unrounds(s, b, n), n) == b
    decreases n
  {
    hide Round, Unround, Schedule.Valid, Schedule.GridArea;
    if n > 0 {
      RoundsUndone(s, b, n - 1);
      RoundUndone(s, Rounds(s, b, n - 1), n - 1);
      RoundUndone(s, b, n - 1);
      RoundsUndone(s, Unround(s, b, n - 1), n - 1);
    }
  }

  // For every schedule the block cipher is a bijection on grids: Decipher is its two-sided inverse.
  lemma EncipherIsBijection(s: Schedule, b: seq<bv64>)
    requires s.Valid() && |b| == s.GridArea()
    ensures Decipher(s, Encipher(s, b)) == b
    ensures Encipher(s, Decipher(s, b)) == b
  {
    hide XorCells, Rounds, Unrounds;
    var first, last, n := s.keys[0], s.keys[|s.keys| - 1], |s.keys| - 2;
    var white := XorCells(b, first);
    XorCellsUndone(Rounds(s, white, n), last);
    RoundsUndone(s, white, n);
    XorCellsUndone(b, first);
    var white' := XorCells(b, last);
    XorCellsUndone(Unrounds(s, white', n), first);
    RoundsUndone(s, white', n);
    XorCellsUndone(b, last);
  }

  // Under one schedule and nonce, different counters never share a keystream block.
  lemma KeystreamInjective(s: Schedule, nonce: seq<bv64>, a: nat, b: nat)
    requires s.Valid() && |nonce| == s.GridArea()
    requires a < TWO_64 && b < TWO_64
    requires Keystream(s, nonce, a) == Keystream(s, nonce, b)
    ensures a == b
  {
    hide Encipher, Decipher, Increment;
    EncipherIsBijection(s, Increment(nonce, a));
    EncipherIsBijection(s, Increment(nonce, b));
    AreaPositive(s.w, s.h);
    IncrementInjective(nonce, a, b);
  }

  // Counter ranges compose with the nonce: a shifted nonce is a shifted counter.
  lemma KeystreamShift(s: Schedule, nonce: seq<bv64>, a: nat, b: nat)
    requires s.Valid() && |nonce| == s.GridArea()
    ensures Keystream(s, Increment(nonce, a), b) == Keystream(s, nonce, a + b)
  {
    hide Encipher, Increment;
    IncrementTwice(nonce, a, b);
  }

  // How many counter blocks there are.
  function Blocks(s: Schedule): (p: nat)
    ensures p > 0
  {
    Power(TWO_64, s.GridArea())
  }

  // Two nonces give the same keystream block exactly when the sums of nonce and counter agree.
  lemma KeystreamEqualIff(s: Schedule, m: seq<bv64>, a: nat, n: seq<bv64>, b: nat)
    requires s.Valid() && |m| == |n| == s.GridArea()
    ensures Keystream(s, m, a) == Keystream(s, n, b)
            <==> (Value(m) + a) % Blocks(s) == (Value(n) + b) % Blocks(s)
  {
    hide Encipher, Decipher, Increment, Value;
    EncipherIsBijection(s, Increment(m, a));
    EncipherIsBijection(s, Increment(n, b));
    IncrementAdds(m, a);
    IncrementAdds(n, b);
  }

  // The distance from one nonce up to the other, around the ring of counter blocks.
  function Distance(s: Schedule, m: seq<bv64>, n: seq<bv64>): (d: nat)
    ensures d < Blocks(s)
  {
    (Value(n) - Value(m)) % Blocks(s)
  }

  // Counters below a from one nonce and below b from another give no common block exactly when neither
  // range reaches the other's nonce.
  lemma RangesDisjointIff(s: Schedule, m: seq<bv64>, a: nat, n: seq<bv64>, b: nat)
    requires s.Valid() && |m| == |n| == s.GridArea() && a > 0 && b > 0
    ensures a <= Distance(s, m, n) && b <= Blocks(s) - Distance(s, m, n)
            <==> forall i, j :: 0 <= i < a && 0 <= j < b ==> Keystream(s, m, i) != Keystream(s, n, j)
  {
    hide Keystream, Distance, Blocks;
    var d: int, p: int := Distance(s, m, n), Blocks(s);
    if a > d {
      Meet(s, m, d, n, 0);
      Residue(d, p, 0);
    } else if b > p - d {
      Meet(s, m, 0, n, p - d);
      Residue(d - p, p, -1);
    } else {
      forall i, j | 0 <= i < a && 0 <= j < b ensures Keystream(s, m, i) != Keystream(s, n, j) {
        Meet(s, m, i, n, j);
        Residue(i - j, p, if i >= j then 0 else -1);
      }
    }
  }

  // The counters that n blocks use: from 2^64 blocks on, all of them.
  function Counters(n: nat): (c: nat)
    ensures c <= n && c <= TWO_64 && (n > 0 ==> c > 0)
  {
    if n < TWO_64 then n else TWO_64
  }

  // Two messages of a and b blocks under one schedule, of any length, share no keystream block exactly
  // when the counters of neither reach the other's nonce. Block indices wrap at 2^64.
  lemma MessagesDisjointIff(s: Schedule, m: seq<bv64>, a: nat, n: seq<bv64>, b: nat)
    requires s.Valid() && |m| == |n| == s.GridArea() && a > 0 && b > 0
    ensures Counters(a) <= Distance(s, m, n) && Counters(b) <= Blocks(s) - Distance(s, m, n)
            <==> forall i, j :: 0 <= i < a && 0 <= j < b ==> MessageBlock(s, m, i) != MessageBlock(s, n, j)
  {
    hide Keystream, Distance, Blocks, MessageBlock, Counters;
    RangesDisjointIff(s, m, Counters(a), n, Counters(b));
    if Counters(a) <= Distance(s, m, n) && Counters(b) <= Blocks(s) - Distance(s, m, n) {
      forall i, j | 0 <= i < a && 0 <= j < b ensures MessageBlock(s, m, i) != MessageBlock(s, n, j) {
        BlockIs(s, m, i, a);
        BlockIs(s, n, j, b);
      }
    } else {
      var i, j :| 0 <= i < Counters(a) && 0 <= j < Counters(b) && Keystream(s, m, i) == Keystream(s, n, j);
      BlockIs(s, m, i, a);
      BlockIs(s, n, j, b);
    }
  }

  // The keystream of a message's i-th block.
  function MessageBlock(s: Schedule, nonce: seq<bv64>, i: nat): seq<bv64>
    requires s.Valid() && |nonce| == s.GridArea()
  {
    Keystream(s, nonce, i % TWO_64)
  }

  lemma BlockIs(s: Schedule, nonce: seq<bv64>, i: nat, n: nat)
    requires s.Valid() && |nonce| == s.GridArea() && i < n
    ensures i % TWO_64 < Counters(n)
    ensures i < Counters(n) ==> i % TWO_64 == i
    ensures MessageBlock(s, nonce, i) == Keystream(s, nonce, i % TWO_64)
  {
    hide Keystream;
  }

  // Block i of one message meets block j of the other when they are the nonces' distance apart.
  lemma Meet(s: Schedule, m: seq<bv64>, i: nat, n: seq<bv64>, j: nat)
    requires s.Valid() && |m| == |n| == s.GridArea()
    ensures Keystream(s, m, i) == Keystream(s, n, j) <==> (i - j) % Blocks(s) == Distance(s, m, n)
  {
    hide Keystream, Value, Blocks;
    KeystreamEqualIff(s, m, i, n, j);
    Congruent(Value(m), i, Value(n), j, Blocks(s));
  }

  lemma Residue(x: int, p: nat, q: int)
    requires p > 0 && q * p <= x < q * p + p
    ensures x % p == x - q * p
  {
    var e, r := x / p, x % p;
    assert x == e * p + r;
    assert (e - q) * p == e * p - q * p;
    assert (q - e) * p == q * p - e * p;
    AtLeast(e - q, p);
    AtLeast(q - e, p);
  }

  lemma Congruent(x: nat, i: nat, y: nat, j: nat, p: nat)
    requires p > 0
    ensures (x + i) % p == (y + j) % p <==> (i - j) % p == (y - x) % p
  {
    SameResidue(x + i, y + j, p);
    SameResidue(i - j, y - x, p);
  }

  lemma SameResidue(x: int, y: int, p: nat)
    requires p > 0
    ensures x % p == y % p <==> (x - y) % p == 0
  {
    var a, b, c := x / p, y / p, (x - y) / p;
    assert x == a * p + x % p && y == b * p + y % p;
    if x % p == y % p {
      assert x - y == (a - b) * p;
      Residue(x - y, p, a - b);
    }
    if (x - y) % p == 0 {
      assert x - y == c * p;
      assert x == (b + c) * p + y % p;
      Residue(x, p, b + c);
    }
  }

  // ----- counter mode -----

  // A grid combined with the keystream of one counter.
  function Combined(s: Schedule, nonce: seq<bv64>, grid: seq<bv64>, counter: nat): (r: seq<bv64>)
    requires s.Valid() && |nonce| == s.GridArea() == |grid|
    ensures |r| == |grid|
  {
    XorCells(grid, Keystream(s, nonce, counter))
  }

  // Grid i is combined with the keystream of counter offset + i, wrapping at 2^64.
  function Ctr(s: Schedule, nonce: seq<bv64>, grids: seq<seq<bv64>>, offset: nat): (r: seq<seq<bv64>>)
    requires s.Valid() && |nonce| == s.GridArea()
    requires forall i :: 0 <= i < |grids| ==> |grids[i]| == s.GridArea()
    ensures |r| == |grids| && forall i :: 0 <= i < |r| ==> |r[i]| == s.GridArea()
  {
    seq(|grids|, i requires 0 <= i < |grids| => Combined(s, nonce, grids[i], (offset + i) % TWO_64))
  }

  lemma CtrTwice(s: Schedule, nonce: seq<bv64>, grids: seq<seq<bv64>>, offset: nat)
    requires s.Valid() && |nonce| == s.GridArea()
    requires forall i :: 0 <= i < |grids| ==> |grids[i]| == s.GridArea()
    ensures Ctr(s, nonce, Ctr(s, nonce, grids, offset), offset) == grids
  {
    hide XorCells, Keystream;
    forall i | 0 <= i < |grids|
      ensures Ctr(s, nonce, Ctr(s, nonce, grids, offset), offset)[i] == grids[i]
    {
      XorCellsUndone(grids[i], Keystream(s, nonce, (offset + i) % TWO_64));
    }
  }
}

/** The in-place code of the mode. */
module CtrMode {
  import opened Bits
  import opened Bytes
  import opened Layers
  import opened Grids
  import opened Cipher
  import Columns
  import Limbs
  import Rows

  // The schedule a slice of key grids and their shifts stand for.
  ghost function Abstract(keys: seq<Grid>, shifts: seq<seq<nat>>): Schedule
    requires |keys| >= 2
    reads set k | k in keys :: k.cells
  {
    Schedule(keys[0].w, keys[0].h, seq(|keys|, i requires 0 <= i < |keys| reads (set k | k in keys :: k.cells) => keys[i].cells[..]), shifts)
  }

  ghost predicate ValidKeys(keys: seq<Grid>) {
    |keys| >= 2 && forall i :: 0 <= i < |keys| ==> keys[i].Valid() && keys[i].w == keys[0].w && keys[i].h == keys[0].h
  }

  // One shift per row for every key between the two whitening keys.
  method DeriveRoundShifts(keys: seq<Grid>) returns (shifts: seq<seq<nat>>)
    requires ValidKeys(keys)
    ensures |shifts| == |keys| - 2
    ensures Abstract(keys, shifts).Valid()
    ensures forall i :: 0 <= i < |shifts| ==> shifts[i] == Shifts(keys[i + 1].cells[..], keys[0].w, keys[0].h)
  {
    hide Shifts;
    shifts := [];
    for i := 1 to |keys| - 1
      invariant |shifts| == i - 1
      invariant forall j :: 0 <= j < i - 1 ==> shifts[j] == Shifts(keys[j + 1].cells[..], keys[0].w, keys[0].h)
    {
      var s := keys[i].PrecalculateShifts();
      shifts := shifts + [s];
    }
  }

  // What a caller of the mode holds: the schedule s as key grids and shifts, and the nonce n.
  ghost predicate Represents(keys: seq<Grid>, shifts: seq<seq<nat>>, nonce: Grid, s: Schedule, n: seq<bv64>)
    reads (set k | k in keys :: k.cells), nonce.cells
  {
    && ValidKeys(keys) && s == Abstract(keys, shifts) && s.Valid()
    && nonce.Valid() && nonce.w == s.w && nonce.h == s.h && n == nonce.cells[..]
  }

  // The nonce advanced by counter, enciphered and combined with the grid in place.
  method KeystreamBlock(grid: Grid, nonce: Grid, keys: seq<Grid>, shifts: seq<seq<nat>>, counter: nat,
                        ghost s: Schedule, ghost n: seq<bv64>)
    requires Represents(keys, shifts, nonce, s, n)
    requires grid.Valid() && grid.w == s.w && grid.h == s.h
    requires counter < TWO_64
    modifies grid.cells
    ensures grid.cells[..] == XorCells(old(grid.cells[..]), Keystream(s, n, counter))
  {
    hide XorCells, Limbs.Increment, Round;
    var block := new Grid.Clone(nonce);
    block.Increment(counter);
    block.XorGrids(keys[0]);
    ghost var white := block.cells[..];
    for i := 0 to |keys| - 2
      invariant fresh(block) && fresh(block.cells) && block.Valid() && block.w == s.w && block.h == s.h
      invariant Represents(keys, shifts, nonce, s, n) && grid.cells[..] == old(grid.cells[..])
      invariant block.cells[..] == Rounds(s, white, i)
    {
      assert s.keys[i + 1] == keys[i + 1].cells[..];
      RunRound(block, keys[i + 1], shifts[i], i, s);
    }
    block.XorGrids(keys[|keys| - 1]);
    grid.XorGrids(block);
  }

  method RunRound(block: Grid, key: Grid, shift: seq<nat>, i: nat, ghost s: Schedule)
    requires s.Valid() && i < |s.keys| - 2 && s.keys[i + 1] == key.cells[..] && s.shifts[i] == shift
    requires block.Valid() && block.w == s.w && block.h == s.h
    requires key.Valid() && key.w == s.w && key.h == s.h && key.cells != block.cells
    modifies block.cells
    ensures block.cells[..] == Round(s, old(block.cells[..]), i)
  {
    hide XorCells, Subcells, Rows.ShiftRows, Columns.MixColumns, Cell;
    block.XorGrids(key);
    block.Subcell(i);
    block.ShiftRows(shift);
    block.MixColumns();
  }

  ghost predicate AllSized(grids: seq<Grid>, s: Schedule) {
    forall i :: 0 <= i < |grids| ==> grids[i].Valid() && grids[i].w == s.w && grids[i].h == s.h
  }

  // No two grids share cells, and none shares them with the keys or the nonce.
  ghost predicate Separate(grids: seq<Grid>, nonce: Grid, keys: seq<Grid>) {
    && (forall i, j :: 0 <= i < j < |grids| ==> grids[i].cells != grids[j].cells)
    && (forall i :: 0 <= i < |grids| ==> grids[i].cells != nonce.cells)
    && (forall i, k :: 0 <= i < |grids| && 0 <= k < |keys| ==> grids[i].cells != keys[k].cells)
  }

  // Combines every grid with its keystream block. The blocks are independent, so running them in
  // order stands for every order in which a pool may run them.
  method ApplyCtrWithShifts(grids: seq<Grid>, nonce: Grid, keys: seq<Grid>, shifts: seq<seq<nat>>, offset: nat,
                            ghost s: Schedule, ghost n: seq<bv64>)
    requires Represents(keys, shifts, nonce, s, n)
    requires AllSized(grids, s) && Separate(grids, nonce, keys)
    requires offset < TWO_64
    modifies set g | g in grids :: g.cells
    ensures Cells(grids) == Ctr(s, n, old(Cells(grids)), offset)
  {
    hide XorCells, Keystream, Schedule.Valid;
    ghost var start := Cells(grids);
    ghost var goal := Ctr(s, n, start, offset);
    for i := 0 to |grids|
      invariant Represents(keys, shifts, nonce, s, n)
      invariant forall j :: i <= j < |grids| ==> grids[j].cells[..] == start[j]
      invariant forall j :: 0 <= j < i ==> grids[j].cells[..] == goal[j]
    {
      KeystreamBlock(grids[i], nonce, keys, shifts, (offset + i) % TWO_64, s, n);
    }
  }
}
