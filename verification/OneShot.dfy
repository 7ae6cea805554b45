/** One-shot encryption and decryption of cells and strings (core/src/encrypter.rs,
    core/src/decrypter.rs). */
module OneShotSpec {
  import opened Rows
  import opened Cipher
  import opened StreamSpec
  import opened StreamRuns
  import Grids
  import Streams

  // The input cut into grids; the last one is padded with zeros.
  function PadChunks(size: nat, data: seq<bv64>): (c: seq<seq<bv64>>)
    requires size > 0
    ensures forall i :: 0 <= i < |c| ==> |c[i]| == size
    decreases |data|
  {
    if data == [] then []
    else if |data| <= size then [Grids.FlatCells(data, size)]
    else [data[..size]] + PadChunks(size, data[size..])
  }

  // Zero cells that complete the last grid.
  function Missing(size: nat, n: nat): (m: nat)
    requires size > 0
    ensures m < size
  {
    if n == 0 then 0 else if n <= size then size - n else Missing(size, n - size)
  }

  function Padded(size: nat, data: seq<bv64>): (p: seq<bv64>)
    requires size > 0
    ensures |p| == |data| + Missing(size, |data|)
  {
    data + seq(Missing(size, |data|), i => 0)
  }

  lemma {:induction false} PadChunksFlat(size: nat, data: seq<bv64>)
    requires size > 0
    ensures Flatten(PadChunks(size, data)) == Padded(size, data)
    ensures |Padded(size, data)| == Area(size, |PadChunks(size, data)|)
    decreases |data|
  {
    if data == [] {
    } else if |data| <= size {
      var g := Grids.FlatCells(data, size);
      assert [g][1..] == [];
      assert g == Padded(size, data);
      assert Area(size, 1) == Area(size, 0) + size;
    } else {
      PadChunksFlat(size, data[size..]);
      assert Padded(size, data) == data[..size] + Padded(size, data[size..]);
      AreaFront(size, |PadChunks(size, data)|);
    }
  }

  // encrypt: pad, cut into grids, combine with the keystream from counter zero.
  function EncryptGrids(k: Secret, input: seq<bv64>): (g: seq<seq<bv64>>)
    requires k.Valid()
    ensures forall i :: 0 <= i < |g| ==> |g[i]| == k.Size()
  {
    SizePositive(k);
    Ctr(k.s, k.nonce, PadChunks(k.Size(), input), 0)
  }

  // decrypt: combine with the same keystream and flatten.
  function DecryptCells(k: Secret, grids: seq<seq<bv64>>): seq<bv64>
    requires k.Valid()
    requires forall i :: 0 <= i < |grids| ==> |grids[i]| == k.Size()
  {
    assert k.Size() == k.s.GridArea();
    Flatten(Ctr(k.s, k.nonce, grids, 0))
  }

  lemma DecryptEncrypt(k: Secret, input: seq<bv64>)
    requires k.Valid()
    ensures k.Size() > 0
    ensures DecryptCells(k, EncryptGrids(k, input)) == Padded(k.Size(), input)
  {
    hide Ctr, Flatten, Padded;
    SizePositive(k);
    Cipher.CtrTwice(k.s, k.nonce, PadChunks(k.Size(), input), 0);
    PadChunksFlat(k.Size(), input);
  }

  // ----- what the ciphertext is -----

  // Encrypting is counter mode from block zero over the padded input.
  lemma EncryptIsCtr(k: Secret, input: seq<bv64>)
    requires k.Valid()
    ensures k.Size() > 0
    ensures Flatten(EncryptGrids(k, input)) == CtrCells(k, 0, Padded(k.Size(), input))
  {
    hide Ctr, Flatten, Padded, CtrCells, Secret.Valid;
    SizePositive(k);
    Streams.GridsCombined(k, 0, PadChunks(k.Size(), input));
    PadChunksFlat(k.Size(), input);
  }

  // And so is decrypting, over the cells of the grids.
  lemma DecryptIsCtr(k: Secret, grids: seq<seq<bv64>>)
    requires k.Valid() && forall i :: 0 <= i < |grids| ==> |grids[i]| == k.Size()
    ensures DecryptCells(k, grids) == CtrCells(k, 0, Flatten(grids))
  {
    hide Ctr, Flatten, CtrCells, Secret.Valid;
    Streams.GridsCombined(k, 0, grids);
  }

  // The cells of the input itself come out as a fresh stream puts them out.
  lemma EncryptIsStream(k: Secret, input: seq<bv64>)
    requires k.Valid()
    ensures |Flatten(EncryptGrids(k, input))| >= |input|
    ensures Flatten(EncryptGrids(k, input))[..|input|] == Run(k, State(0, []), Feed([input])).out
  {
    hide EncryptGrids, Flatten, CtrCells, Secret.Valid, Secret.Size, Run, Feed;
    SizePositive(k);
    EncryptIsCtr(k, input);
    var padded := Padded(k.Size(), input);
    CtrPrefix(k, 0, input, padded);
    ChunkingInvisible(k, [input]);
    OneChunk(input);
  }

  // Every cell of it is xored with its cell of the keystream.
  lemma EncryptAt(k: Secret, input: seq<bv64>, i: nat)
    requires k.Valid() && i < |input|
    ensures |Flatten(EncryptGrids(k, input))| >= |input|
    ensures Flatten(EncryptGrids(k, input))[i] == input[i] ^ KeyCell(k, 0, i)
  {
    hide EncryptGrids, Flatten, CtrCells, Secret.Valid, Secret.Size, KeyCell;
    SizePositive(k);
    EncryptIsCtr(k, input);
    CtrAt(k, 0, Padded(k.Size(), input), i);
  }

  lemma CtrPrefix(k: Secret, start: nat, x: seq<bv64>, y: seq<bv64>)
    requires k.Valid() && x <= y
    ensures |CtrCells(k, start, y)| == |y| && CtrCells(k, start, y)[..|x|] == CtrCells(k, start, x)
  {
    hide CtrCells, Secret.Valid, KeyCell;
    CtrLength(k, start, x);
    CtrLength(k, start, y);
    forall i | 0 <= i < |x| ensures CtrCells(k, start, y)[i] == CtrCells(k, start, x)[i] {
      CtrAt(k, start, x, i);
      CtrAt(k, start, y, i);
    }
  }

  lemma OneChunk(input: seq<bv64>)
    ensures Flatten([input]) == input
  {
    assert [input][1..] == [];
    assert Flatten([input]) == input + Flatten([]);
  }
}

module OneShot {
  import opened Rows
  import opened Layers
  import opened Grids
  import opened CtrMode
  import opened StreamSpec
  import opened StreamRuns
  import opened OneShotSpec
  import Cipher
  import Streams

  ghost predicate Unshared(grids: seq<Grid>) {
    forall i, j :: 0 <= i < j < |grids| ==> grids[i].cells != grids[j].cells
  }

  // Shapes the input into new grids, the last one padded with zeros.
  method Shape(input: seq<bv64>, ghost s: Cipher.Schedule, w: nat, h: nat) returns (grids: seq<Grid>)
    requires s.Valid() && ValidDims(w, h) && w == s.w && h == s.h && Area(w, h) > 0
    ensures AllSized(grids, s) && Unshared(grids)
    ensures forall i :: 0 <= i < |grids| ==> fresh(grids[i].cells)
    ensures Cells(grids) == PadChunks(Area(w, h), input)
  {
    hide Cipher.Schedule.Valid, PadChunks, FlatCells;
    var size := Area(w, h);
    grids := [];
    var rest := input;
    NoChunks(size);
    while rest != []
      invariant AllSized(grids, s) && Unshared(grids)
      invariant forall i :: 0 <= i < |grids| ==> fresh(grids[i].cells)
      invariant PadChunks(size, input) == Cells(grids) + PadChunks(size, rest)
      decreases |rest|
    {
      var take := if |rest| <= size then |rest| else size;
      ghost var before := Cells(grids);
      FirstChunk(size, rest, take);
      var grid := new Grid.FromFlat(w, h, rest[..take]);
      grids := grids + [grid];
      assert Cells(grids) == before + [grid.cells[..]];
      rest := rest[take..];
    }
  }

  lemma NoChunks(size: nat)
    requires size > 0
    ensures PadChunks(size, []) == []
  {}

  // Shapes the input and encrypts it in place.
  method Encrypt(input: seq<bv64>, keys: seq<Grid>, shifts: seq<seq<nat>>, nonce: Grid, ghost k: Secret)
    returns (grids: seq<Grid>)
    requires k.Valid() && Represents(keys, shifts, nonce, k.s, k.nonce)
    ensures AllSized(grids, k.s) && Unshared(grids)
    ensures forall i :: 0 <= i < |grids| ==> fresh(grids[i].cells)
    ensures Cells(grids) == EncryptGrids(k, input)
  {
    hide Cipher.Schedule.Valid, Cipher.Ctr, PadChunks;
    SizePositive(k);
    grids := Shape(input, k.s, nonce.w, nonce.h);
    CtrMode.ApplyCtrWithShifts(grids, nonce, keys, shifts, 0, k.s, k.nonce);
  }

  lemma FirstChunk(size: nat, rest: seq<bv64>, take: nat)
    requires size > 0 && rest != [] && take == if |rest| <= size then |rest| else size
    ensures PadChunks(size, rest) == [FlatCells(rest[..take], size)] + PadChunks(size, rest[take..])
  {
    if |rest| <= size {
      assert rest[..take] == rest && rest[take..] == [];
    } else {
      assert FlatCells(rest[..take], size) == rest[..take];
    }
  }

  // Decrypts the grids in place and flattens them.
  method Decrypt(grids: seq<Grid>, keys: seq<Grid>, shifts: seq<seq<nat>>, nonce: Grid, ghost k: Secret)
    returns (output: seq<bv64>)
    requires k.Valid() && Represents(keys, shifts, nonce, k.s, k.nonce)
    requires AllSized(grids, k.s) && Separate(grids, nonce, keys)
    modifies set g | g in grids :: g.cells
    ensures output == DecryptCells(k, old(Cells(grids)))
  {
    hide Cipher.Schedule.Valid, Cipher.Ctr, Flatten;
    CtrMode.ApplyCtrWithShifts(grids, nonce, keys, shifts, 0, k.s, k.nonce);
    ghost var done := Cells(grids);
    output := [];
    Streams.FlattenNothing(done[..0]);
    for i := 0 to |grids|
      invariant Cells(grids) == done
      invariant output == Flatten(done[..i])
    {
      Streams.FlattenLast(done[..i], done[i]);
      assert done[..i + 1] == done[..i] + [done[i]];
      output := output + grids[i].cells[..];
    }
    assert done[..|grids|] == done;
  }
}

/** Strings: two 32-bit units per cell, closed by a terminator that is no Unicode scalar value. */
module Text {
  import opened Bytes
  import opened StreamSpec
  import opened OneShotSpec
  import opened Grids
  import StreamRuns

  const TERMINATOR: nat := 0xFFFF_FFFF
  const TWO_32: nat := 0x1_0000_0000

  predicate IsScalar(u: nat) {
    u < 0xD800 || 0xE000 <= u < 0x11_0000
  }

  // c as u32
  function CodePoints(s: string): (u: seq<nat>)
    ensures |u| == |s|
    ensures forall i :: 0 <= i < |u| ==> u[i] < TERMINATOR
  {
    seq(|s|, i requires 0 <= i < |s| => s[i] as int)
  }

  // Code points, terminator, and one zero if that is an odd number of units.
  function Units(s: string): (u: seq<nat>)
    ensures |u| % 2 == 0
    ensures forall i :: 0 <= i < |u| ==> u[i] < TWO_32
  {
    var closed := CodePoints(s) + [TERMINATOR];
    if |closed| % 2 != 0 then closed + [0] else closed
  }

  // Two units per cell, the first in the high half.
  function PackUnits(u: seq<nat>): (c: seq<bv64>)
    requires |u| % 2 == 0
    ensures |c| == |u| / 2
  {
    seq(|u| / 2, i requires 0 <= i < |u| / 2 => Cell(u[2 * i] * TWO_32 + u[2 * i + 1]))
  }

  // Both halves of every cell.
  function UnpackUnits(c: seq<bv64>): (u: seq<nat>)
    ensures |u| == 2 * |c|
  {
    seq(2 * |c|, j requires 0 <= j < 2 * |c| =>
      if j % 2 == 0 then U64(c[j / 2]) / TWO_32 else U64(c[j / 2]) % TWO_32)
  }

  function StringCells(s: string): seq<bv64> {
    PackUnits(Units(s))
  }

  // Reads units up to the terminator; a unit that is no scalar value, or no terminator, is an error.
  function ReadUnits(u: seq<nat>): Result<string> {
    if u == [] then Err(InvalidUnicode)
    else if u[0] == TERMINATOR then Ok("")
    else if !IsScalar(u[0]) then Err(InvalidUnicode)
    else
      match ReadUnits(u[1..])
      case Ok(rest) => Ok([u[0] as char] + rest)
      case Err(e) => Err(e)
  }

  // After pos units, output is what was read.
  ghost predicate ReadSoFar(units: seq<nat>, pos: nat, output: string) {
    pos <= |units| && ReadUnits(units) == Prepend(output, ReadUnits(units[pos..]))
  }

  ghost function Prepend(s: string, r: Result<string>): Result<string> {
    match r
    case Ok(rest) => Ok(s + rest)
    case Err(e) => Err(e)
  }

  lemma ReadStart(units: seq<nat>)
    ensures ReadSoFar(units, 0, "")
  {
    assert units[0..] == units;
    if ReadUnits(units).Ok? { assert "" + ReadUnits(units).value == ReadUnits(units).value; }
  }

  // What the next unit, if there is one, decides.
  lemma ReadNext(units: seq<nat>, pos: nat, output: string)
    requires ReadSoFar(units, pos, output)
    ensures pos == |units| ==> ReadUnits(units) == Err(InvalidUnicode)
    ensures pos < |units| && units[pos] == TERMINATOR ==> ReadUnits(units) == Ok(output)
    ensures pos < |units| && units[pos] != TERMINATOR && !IsScalar(units[pos]) ==> ReadUnits(units) == Err(InvalidUnicode)
    ensures pos < |units| && units[pos] != TERMINATOR && IsScalar(units[pos]) ==>
      ReadSoFar(units, pos + 1, output + [units[pos] as char])
  {
    var tail := units[pos..];
    if pos < |units| {
      assert tail[0] == units[pos] && tail[1..] == units[pos + 1..];
      if units[pos] == TERMINATOR {
        assert output + "" == output;
      } else if IsScalar(units[pos]) {
        var c, rest := units[pos] as char, ReadUnits(tail[1..]);
        if rest.Ok? { assert output + ([c] + rest.value) == (output + [c]) + rest.value; }
      }
    }
  }

  // The nested loop of decrypt_string, with its early exit at the terminator.
  method ReadString(cells: seq<bv64>) returns (r: Result<string>)
    ensures r == ReadUnits(UnpackUnits(cells))
  {
    hide U64, ReadUnits, ReadSoFar;
    var output := "";
    ghost var units := UnpackUnits(cells);
    ReadStart(units);
    for i := 0 to |cells|
      invariant ReadSoFar(units, 2 * i, output)
    {
      var n := U64(cells[i]);
      var pair := [n / TWO_32, n % TWO_32];
      for j := 0 to 2
        invariant ReadSoFar(units, 2 * i + j, output)
      {
        var unit := pair[j];
        ReadNext(units, 2 * i + j, output);
        assert units[2 * i + j] == unit;
        if unit == TERMINATOR { return Ok(output); }
        if !IsScalar(unit) { return Err(InvalidUnicode); }
        output := output + [unit as char];
      }
    }
    ReadNext(units, |units|, output);
    r := Err(InvalidUnicode);
  }

  // ----- the round trip -----

  // A string is read exactly when its code points and the terminator open the units; what follows
  // the terminator does not matter.
  lemma {:induction false} ReadIff(u: seq<nat>, s: string)
    ensures ReadUnits(u) == Ok(s) <==> CodePoints(s) + [TERMINATOR] <= u
    decreases |u|
  {
    var closed := CodePoints(s) + [TERMINATOR];
    assert closed[0] == if s == "" then TERMINATOR else s[0] as int;
    if u != [] && u[0] != TERMINATOR && IsScalar(u[0]) && s != "" {
      ReadIff(u[1..], s[1..]);
      var rest := CodePoints(s[1..]) + [TERMINATOR];
      assert closed == [s[0] as int] + rest;
      assert u == [u[0]] + u[1..];
      assert s == [s[0]] + s[1..];
      assert closed <= u <==> s[0] as int == u[0] && rest <= u[1..] by {
        if closed <= u { assert u[0] == closed[0] && closed[1..] == rest && closed[1..] <= u[1..]; }
      }
    }
  }

  lemma CellHalves(high: nat, low: nat)
    requires high < TWO_32 && low < TWO_32
    ensures U64(Cell(high * TWO_32 + low)) / TWO_32 == high
    ensures U64(Cell(high * TWO_32 + low)) % TWO_32 == low
  {
    hide U64, Cell;
    U64OfCell(high * TWO_32 + low);
  }

  lemma UnpackPacked(u: seq<nat>, extra: seq<bv64>)
    requires |u| % 2 == 0 && forall i :: 0 <= i < |u| ==> u[i] < TWO_32
    ensures u <= UnpackUnits(PackUnits(u) + extra)
  {
    hide U64, Cell;
    var c := PackUnits(u) + extra;
    forall j | 0 <= j < |u| ensures UnpackUnits(c)[j] == u[j] {
      var i := j / 2;
      assert c[i] == Cell(u[2 * i] * TWO_32 + u[2 * i + 1]);
      CellHalves(u[2 * i], u[2 * i + 1]);
    }
  }

  // The units of a string: its code points, the terminator, and a zero if their number is odd, packed two
  // to a cell with the first in the high half.
  lemma StringCellIs(s: string, i: nat)
    requires i < |StringCells(s)|
    ensures |StringCells(s)| == (|s| + 2) / 2
    ensures U64(StringCells(s)[i]) == UnitOf(s, 2 * i) * 0x1_0000_0000 + UnitOf(s, 2 * i + 1)
  {
    hide U64, Cell;
    var u := Units(s);
    assert u[2 * i] == UnitOf(s, 2 * i) && u[2 * i + 1] == UnitOf(s, 2 * i + 1);
    U64OfCell(u[2 * i] * TWO_32 + u[2 * i + 1]);
    ModSmall(u[2 * i] * TWO_32 + u[2 * i + 1]);
  }

  function UnitOf(s: string, j: nat): nat {
    if j < |s| then s[j] as nat else if j == |s| then 0xFFFF_FFFF else 0
  }

  // Every refusal is the same one.
  lemma {:induction false} ReadErrors(u: seq<nat>)
    ensures ReadUnits(u).Err? ==> ReadUnits(u).error == InvalidUnicode
  {
    if u != [] { ReadErrors(u[1..]); }
  }

  // Encrypting a string xors each of these cells with its cell of the keystream.
  lemma EncryptStringAt(k: Secret, s: string, i: nat)
    requires k.Valid() && i < |StringCells(s)|
    ensures |StreamRuns.Flatten(EncryptGrids(k, StringCells(s)))| >= |StringCells(s)|
    ensures StreamRuns.Flatten(EncryptGrids(k, StringCells(s)))[i] == StringCells(s)[i] ^ KeyCell(k, 0, i)
  {
    hide EncryptGrids, StringCells, Secret.Valid, KeyCell, StreamRuns.Flatten;
    EncryptAt(k, StringCells(s), i);
  }

  // Every string survives, embedded and trailing NULs included, whatever zero padding follows.
  lemma StringRoundTrip(s: string, extra: seq<bv64>)
    ensures ReadUnits(UnpackUnits(StringCells(s) + extra)) == Ok(s)
  {
    hide UnpackUnits, PackUnits, ReadUnits;
    var u := UnpackUnits(StringCells(s) + extra);
    UnpackPacked(Units(s), extra);
    assert CodePoints(s) + [TERMINATOR] <= Units(s) <= u;
    ReadIff(u, s);
  }

  // decrypt_string of encrypt_string returns the string.
  lemma DecryptEncryptString(k: Secret, s: string)
    requires k.Valid()
    ensures ReadUnits(UnpackUnits(DecryptCells(k, EncryptGrids(k, StringCells(s))))) == Ok(s)
  {
    hide Secret.Valid, DecryptCells, EncryptGrids, StringCells, ReadUnits, UnpackUnits;
    DecryptEncrypt(k, StringCells(s));
    StringRoundTrip(s, seq(Missing(k.Size(), |StringCells(s)|), i => 0));
  }
}
