/** What the cipher computes, column by column and key by key, without its own round functions. */
module CipherShape {
  import opened Bits
  import opened Bytes
  import opened Mds
  import opened Rows
  import opened Columns
  import opened Layers
  import opened Limbs
  import opened Cipher
  import Arx

  // A cell of the block with the key added and sent through the cell transform.
  function Keyed(s: Schedule, b: seq<bv64>, i: nat, p: nat): bv64
    requires s.Valid() && |b| == s.GridArea() && i < |s.keys| - 2 && p < |b|
  {
    Arx.Cell(b[p] ^ s.keys[i + 1][p], Bytes.Cell(i))
  }

  // What round i gathers for column c: from every row, the cell its shift brings there.
  function Gathered(s: Schedule, b: seq<bv64>, i: nat, c: nat): (x: seq<bv64>)
    requires s.Valid() && |b| == s.GridArea() && i < |s.keys| - 2 && c < s.w
    ensures |x| == s.h
  {
    seq(s.h, r requires 0 <= r < s.h => (AreaGrows(s.w, r, s.h); Keyed(s, b, i, Area(s.w, r) + Source(s.w, s.shifts[i][r], c))))
  }

  // A round adds its key, transforms every cell with the round number, rotates every row and multiplies
  // every column by the matrix, in that order.
  lemma RoundColumn(s: Schedule, b: seq<bv64>, i: nat, c: nat)
    requires s.Valid() && |b| == s.GridArea() && i < |s.keys| - 2 && c < s.w
    ensures Column(Round(s, b, i), s.w, s.h, c) == MixColumn(s.h, Gathered(s, b, i, c))
  {
    hide XorCells, Subcells, Rows.ShiftRows, Columns.MixColumns, MixColumn, Bytes.Cell, Keyed, Column;
    var added := XorCells(b, s.keys[i + 1]);
    var mixed := Subcells(added, Bytes.Cell(i));
    var turned := Rows.ShiftRows(mixed, s.w, s.shifts[i]);
    ColumnOfMixed(turned, s.w, s.h, c);
    forall r | 0 <= r < s.h ensures Column(turned, s.w, s.h, c)[r] == Gathered(s, b, i, c)[r] {
      AreaGrows(s.w, r, s.h);
      ShiftRowsAt(mixed, s.w, s.shifts[i], r, c);
      ColumnAt(turned, s.w, s.h, c, r);
      MixedAtPlace(s, b, i, Area(s.w, r) + Source(s.w, s.shifts[i][r], c));
    }
    assert Column(turned, s.w, s.h, c) == Gathered(s, b, i, c);
  }

  lemma ColumnAt(g: seq<bv64>, w: nat, h: nat, c: nat, r: nat)
    requires |g| == Area(w, h) && c < w && r < h
    ensures Area(w, r) + w <= |g| && Column(g, w, h, c)[r] == g[Area(w, r) + c]
  {
    AreaGrows(w, r, h);
  }

  lemma MixedAtPlace(s: Schedule, b: seq<bv64>, i: nat, p: nat)
    requires s.Valid() && |b| == s.GridArea() && i < |s.keys| - 2 && p < |b|
    ensures Subcells(XorCells(b, s.keys[i + 1]), Bytes.Cell(i))[p] == Keyed(s, b, i, p)
  {
    hide Xor, Arx.Cell, Bytes.Cell;
    XorDef(b[p], s.keys[i + 1][p]);
  }

  // With the two whitening keys alone the cipher adds both.
  lemma EncipherTwoKeys(s: Schedule, b: seq<bv64>, p: nat)
    requires s.Valid() && |b| == s.GridArea() && |s.keys| == 2 && p < |b|
    ensures Encipher(s, b)[p] == Xor(Xor(b[p], s.keys[0][p]), s.keys[1][p])
  {
    hide Xor, Round;
  }

  // The schedule without its last key.
  function Shorter(s: Schedule): (t: Schedule)
    requires s.Valid() && |s.keys| > 2
    ensures t.Valid() && t.GridArea() == s.GridArea()
  {
    s.(keys := s.keys[..|s.keys| - 1])
  }

  lemma {:induction false} RoundsOfShorter(s: Schedule, b: seq<bv64>, n: nat)
    requires s.Valid() && |s.keys| > 2 && |b| == s.GridArea() && n <= |s.keys| - 3
    ensures Rounds(Shorter(s), b, n) == Rounds(s, b, n)
  {
    hide XorCells, Subcells, Rows.ShiftRows, Columns.MixColumns, Bytes.Cell;
    if n > 0 { RoundsOfShorter(s, b, n - 1); }
  }

  // With one more key the whitening of the shorter schedule is undone, its last key drives one more
  // round, and the new key whitens.
  lemma EncipherOneMoreKey(s: Schedule, b: seq<bv64>)
    requires s.Valid() && |b| == s.GridArea() && |s.keys| > 2
    ensures var n := |s.keys| - 1;
            Encipher(s, b) == XorCells(Round(s, XorCells(Encipher(Shorter(s), b), s.keys[n - 1]), n - 2), s.keys[n])
  {
    hide XorCells, Rounds, Round;
    var n := |s.keys| - 1;
    var white := XorCells(b, s.keys[0]);
    RoundsOfShorter(s, white, n - 2);
    XorCellsUndone(Rounds(s, white, n - 2), s.keys[n - 1]);
    RoundsStep(s, white, n - 1);
  }

  lemma RoundsStep(s: Schedule, b: seq<bv64>, n: nat)
    requires s.Valid() && |b| == s.GridArea() && 0 < n <= |s.keys| - 2
    ensures Rounds(s, b, n) == Round(s, Rounds(s, b, n - 1), n - 1)
  {
    hide Round;
  }

  // The block under a counter is the cipher's image of the nonce with the counter added to it as one
  // large number.
  lemma KeystreamInput(s: Schedule, nonce: seq<bv64>, counter: nat)
    requires s.Valid() && |nonce| == s.GridArea()
    ensures Encipher(s, Decipher(s, Keystream(s, nonce, counter))) == Keystream(s, nonce, counter)
    ensures Value(Decipher(s, Keystream(s, nonce, counter))) == (Value(nonce) + counter) % Power(TWO_64, |nonce|)
  {
    hide Encipher, Decipher, Increment, Value;
    EncipherIsBijection(s, Increment(nonce, counter));
    IncrementAdds(nonce, counter);
  }

  // Counter mode xors cell p of grid i with cell p of the keystream under offset + i.
  lemma CtrCell(s: Schedule, nonce: seq<bv64>, grids: seq<seq<bv64>>, offset: nat, i: nat, p: nat)
    requires s.Valid() && |nonce| == s.GridArea() && i < |grids| && p < s.GridArea()
    requires forall j :: 0 <= j < |grids| ==> |grids[j]| == s.GridArea()
    ensures Ctr(s, nonce, grids, offset)[i][p] == Xor(grids[i][p], Keystream(s, nonce, (offset + i) % TWO_64)[p])
  {
    hide Xor, Keystream, Schedule.Valid;
  }
}
