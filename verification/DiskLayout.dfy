/** Which keystream byte each byte of a stored picture is combined with, given the sizes of the chunks
    it was written in; and exactly which sizes the reader can read back. */
module DiskLayout {
  import opened Wrappers
  import opened Bits
  import opened Bytes
  import opened Rows
  import opened Layers
  import opened StreamSpec
  import opened PacketSpec
  import opened DiskSpec
  import Limbs
  import Cipher
  import Columns

  // A keystream byte: block of the stream, and position in it.
  datatype Spot = Spot(block: nat, at: nat)

  // The q-th byte of blocks of g bytes.
  function SpotAt(g: nat, q: nat): (s: Spot)
    requires g > 0
    ensures s.at < g
  {
    if q < g then Spot(0, q) else SpotAt(g, q - g).(block := SpotAt(g, q - g).block + 1)
  }

  // The blocks chunks of these sizes take, each starting a block of its own.
  function BlocksOf(g: nat, sizes: seq<nat>): nat
    requires g > 0
  {
    if sizes == [] then 0
    else
      var n := |sizes| - 1;
      BlocksOf(g, sizes[..n]) + (if sizes[n] == 0 then 0 else SpotAt(g, sizes[n] - 1).block + 1)
  }

  function Moved(s: Spot, start: nat): Spot { s.(block := start + s.block) }

  function Layout(g: nat, sizes: seq<nat>): (l: seq<Spot>)
    requires g > 0
    ensures forall p :: 0 <= p < |l| ==> l[p].at < g
  {
    if sizes == [] then []
    else
      var n := |sizes| - 1;
      Layout(g, sizes[..n]) + Piece(g, BlocksOf(g, sizes[..n]), sizes[n])
  }

  // n bytes from block start on.
  function Piece(g: nat, start: nat, n: nat): (l: seq<Spot>)
    requires g > 0
    ensures |l| == n && forall q :: 0 <= q < n ==> l[q].at < g
  {
    seq(n, q requires 0 <= q => Moved(SpotAt(g, q), start))
  }

  function Sizes(chunks: seq<seq<byte>>): (sizes: seq<nat>)
    ensures |sizes| == |chunks| && forall i :: 0 <= i < |sizes| ==> sizes[i] == |chunks[i]|
  {
    seq(|chunks|, i requires 0 <= i < |chunks| => |chunks[i]|)
  }

  // The sizes the reader cuts n bytes into.
  function ReadSizes(n: nat): (sizes: seq<nat>) {
    if n == 0 then [] else if n <= UPLOAD_CHUNK_SIZE then [n] else [UPLOAD_CHUNK_SIZE] + ReadSizes(n - UPLOAD_CHUNK_SIZE)
  }

  lemma {:induction false} CutSizes(b: seq<byte>)
    ensures Sizes(Cut(UPLOAD_CHUNK_SIZE, b)) == ReadSizes(|b|)
    decreases |b|
  {
    if |b| > UPLOAD_CHUNK_SIZE {
      CutSizes(b[UPLOAD_CHUNK_SIZE..]);
      var rest := Cut(UPLOAD_CHUNK_SIZE, b[UPLOAD_CHUNK_SIZE..]);
      assert Sizes([b[..UPLOAD_CHUNK_SIZE]] + rest) == [UPLOAD_CHUNK_SIZE] + Sizes(rest);
    }
  }

  function KeyByte(k: Secret, s: Spot): byte
    requires k.Valid() && s.at < 8 * k.Size()
  {
    ByteAt(k.Pad(s.block)[s.at / 8], s.at % 8)
  }

  // ----- the keystream follows the layout -----

  lemma {:induction false} SpotScale(size: nat, q: nat)
    requires size > 0
    ensures var s := SpotAt(8 * size, q);
            SpotAt(size, q / 8) == Spot(s.block, s.at / 8) && q % 8 == s.at % 8
  {
    if q >= 8 * size {
      SpotScale(size, q - 8 * size);
      assert (q - 8 * size) / 8 == q / 8 - size && (q - 8 * size) % 8 == q % 8;
    }
  }

  lemma {:induction false} BlockCountIs(size: nat, n: nat)
    requires size > 0
    ensures BlockCount(size, (n + 7) / 8) == if n == 0 then 0 else SpotAt(8 * size, n - 1).block + 1
  {
    if n > 8 * size {
      BlockCountIs(size, n - 8 * size);
      assert (n + 7) / 8 - size == (n - 8 * size + 7) / 8;
    }
  }

  lemma {:induction false} SpentIs(k: Secret, chunks: seq<seq<byte>>)
    requires k.Valid()
    ensures k.Size() > 0 && Spent(k, chunks) == BlocksOf(8 * k.Size(), Sizes(chunks))
  {
    hide Secret.Valid, Secret.Size;
    SizePositive(k);
    if chunks != [] {
      var n := |chunks| - 1;
      SpentIs(k, chunks[..n]);
      BlockCountIs(k.Size(), |chunks[n]|);
      assert Sizes(chunks)[..n] == Sizes(chunks[..n]);
    }
  }

  lemma {:induction false} CtrZerosAt(k: Secret, start: nat, n: nat, i: nat)
    requires k.Valid() && i < n
    ensures k.Size() > 0 && |CtrCells(k, start, Filled<bv64>(n, 0))| == n
    ensures CtrCells(k, start, Filled<bv64>(n, 0))[i] == k.Pad(start + SpotAt(k.Size(), i).block)[SpotAt(k.Size(), i).at]
    decreases n
  {
    hide Secret.Valid, Secret.Pad, Secret.Size, CtrCells, XorCells;
    SizePositive(k);
    CtrLength(k, start, Filled<bv64>(n, 0));
    var size := k.Size();
    if n <= size {
      CtrShort(k, start, Filled<bv64>(n, 0));
      XorWithZeros(k.Pad(start)[..n]);
    } else {
      assert Filled<bv64>(n, 0) == Filled<bv64>(size, 0) + Filled<bv64>(n - size, 0);
      CtrBlock(k, start, Filled<bv64>(size, 0), Filled<bv64>(n - size, 0));
      XorWithZeros(k.Pad(start));
      if i >= size { CtrZerosAt(k, start + 1, n - size, i - size); }
    }
  }

  lemma StreamByteIs(k: Secret, spent: nat, n: nat, q: nat)
    requires k.Valid() && q < n
    ensures k.Size() > 0
    ensures StreamBytes(k, spent, Filled<byte>(n, 0))[q] == KeyByte(k, Moved(SpotAt(8 * k.Size(), q), spent))
  {
    hide Secret.Valid, Secret.Pad, Secret.Size, CtrCells, SpotAt, StreamBytes, ByteAt, Xor8;
    SizePositive(k);
    var cells := CtrCells(k, spent, Filled<bv64>((n + 7) / 8, 0));
    AsXor(k, spent, Filled<byte>(n, 0));
    CtrZerosAt(k, spent, (n + 7) / 8, q / 8);
    SpotScale(k.Size(), q);
    ByteZero(CellsToBytes(cells)[q]);
  }

  lemma {:induction false} KeyedIs(k: Secret, chunks: seq<seq<byte>>, p: nat)
    requires k.Valid() && p < |Keyed(k, chunks)|
    ensures k.Size() > 0 && |Layout(8 * k.Size(), Sizes(chunks))| == |Keyed(k, chunks)|
    ensures Keyed(k, chunks)[p] == KeyByte(k, Layout(8 * k.Size(), Sizes(chunks))[p])
    decreases |chunks|
  {
    hide Secret.Valid, Secret.Size, StreamBytes, KeyByte, SpotAt, Spent, BlocksOf;
    SizePositive(k);
    var g := 8 * k.Size();
    var n := |chunks| - 1;
    var init := chunks[..n];
    LayoutLength(g, chunks);
    LayoutLength(g, init);
    assert Sizes(chunks)[..n] == Sizes(init);
    SpentIs(k, init);
    if p < |Keyed(k, init)| {
      KeyedIs(k, init, p);
    } else {
      StreamByteIs(k, Spent(k, init), |chunks[n]|, p - |Keyed(k, init)|);
    }
  }

  lemma {:induction false} LayoutLength(g: nat, chunks: seq<seq<byte>>)
    requires g > 0
    ensures |Layout(g, Sizes(chunks))| == |Concat(chunks)|
  {
    if chunks != [] {
      var n := |chunks| - 1;
      LayoutLength(g, chunks[..n]);
      assert Sizes(chunks)[..n] == Sizes(chunks[..n]);
    }
  }

  // ----- two layouts that differ put some byte at two positions -----

  predicate Follows(s: Spot, next: Spot) {
    next == Spot(s.block, s.at + 1) || next == Spot(s.block + 1, 0)
  }

  ghost predicate Chained(l: seq<Spot>) {
    (l != [] ==> l[0] == Spot(0, 0)) && forall p :: 0 < p < |l| ==> Follows(l[p - 1], l[p])
  }

  lemma {:induction false} SpotNext(g: nat, q: nat)
    requires g > 0 && q > 0
    ensures Follows(SpotAt(g, q - 1), SpotAt(g, q))
  {
    if q > g { SpotNext(g, q - g); }
  }

  lemma PieceFollows(g: nat, start: nat, n: nat)
    requires g > 0 && n > 0
    ensures var l := Piece(g, start, n);
            && l[0] == Spot(start, 0)
            && (forall q :: 0 < q < n ==> Follows(l[q - 1], l[q]))
            && l[n - 1].block == start + SpotAt(g, n - 1).block
  {
    forall q | 0 < q < n ensures Follows(Piece(g, start, n)[q - 1], Piece(g, start, n)[q]) {
      SpotNext(g, q);
    }
  }

  lemma ChainJoin(a: seq<Spot>, b: seq<Spot>)
    requires Chained(a) && b != [] && forall q :: 0 < q < |b| ==> Follows(b[q - 1], b[q])
    requires b[0] == if a == [] then Spot(0, 0) else Spot(a[|a| - 1].block + 1, 0)
    ensures Chained(a + b)
  {
    var l := a + b;
    forall p | 0 < p < |l| ensures Follows(l[p - 1], l[p]) {
      if p < |a| {
        assert Follows(a[p - 1], a[p]);
      } else if p > |a| {
        assert Follows(b[p - |a| - 1], b[p - |a|]);
      }
    }
  }

  lemma {:induction false} LayoutChained(g: nat, sizes: seq<nat>)
    requires g > 0
    ensures Chained(Layout(g, sizes))
    ensures var l := Layout(g, sizes); BlocksOf(g, sizes) == if l == [] then 0 else l[|l| - 1].block + 1
  {
    hide Chained, Piece, SpotAt;
    if sizes == [] {
      NothingChained();
    } else {
      var n := |sizes| - 1;
      LayoutChained(g, sizes[..n]);
      var init, piece := Layout(g, sizes[..n]), Piece(g, BlocksOf(g, sizes[..n]), sizes[n]);
      if sizes[n] == 0 {
        assert init + piece == init;
      } else {
        PieceFollows(g, BlocksOf(g, sizes[..n]), sizes[n]);
        ChainJoin(init, piece);
      }
    }
  }

  lemma NothingChained()
    ensures Chained([])
  {}

  lemma {:induction false} PositionsDetermine(x: seq<Spot>, y: seq<Spot>, n: nat)
    requires Chained(x) && Chained(y) && n <= |x| == |y|
    requires forall p :: 0 <= p < n ==> x[p].at == y[p].at
    ensures forall p :: 0 <= p < n ==> x[p] == y[p]
  {
    if n > 1 {
      PositionsDetermine(x, y, n - 1);
      assert Follows(x[n - 2], x[n - 1]) && Follows(y[n - 2], y[n - 1]);
    }
  }

  // ----- two positions are told apart by some key -----

  // The two secrets differ in the last whitening key only.
  ghost predicate SameButLast(k: Secret, q: Secret) {
    && q.Valid() && q.s.w == k.s.w && q.s.h == k.s.h && q.s.shifts == k.s.shifts && q.nonce == k.nonce
    && |q.s.keys| == |k.s.keys| && forall i :: 0 <= i < |k.s.keys| - 1 ==> q.s.keys[i] == k.s.keys[i]
  }

  function Marked(k: Secret, mark: seq<bv64>): (q: Secret)
    requires k.Valid() && |mark| == k.Size()
    ensures q.Valid() && q.Size() == k.Size()
    ensures SameButLast(k, q)
  {
    var last := |k.s.keys| - 1;
    k.(s := k.s.(keys := k.s.keys[last := XorCells(k.s.keys[last], mark)]))
  }

  // The rounds never look at the last key.
  lemma {:induction false} RoundsIgnoreLast(k: Secret, mark: seq<bv64>, b: seq<bv64>, n: nat)
    requires k.Valid() && |mark| == |b| == k.Size() && n <= |k.s.keys| - 2
    ensures Cipher.Rounds(Marked(k, mark).s, b, n) == Cipher.Rounds(k.s, b, n)
  {
    hide XorCells, Subcells, Rows.ShiftRows, Columns.MixColumns, Bytes.Cell;
    if n > 0 { RoundsIgnoreLast(k, mark, b, n - 1); }
  }

  lemma XorRegroup(a: seq<bv64>, b: seq<bv64>, c: seq<bv64>)
    requires |a| == |b| == |c|
    ensures XorCells(a, XorCells(b, c)) == XorCells(XorCells(a, b), c)
  {
    hide Xor;
    forall i | 0 <= i < |a| ensures XorCells(a, XorCells(b, c))[i] == XorCells(XorCells(a, b), c)[i] {
      XorAssoc(a[i], b[i], c[i]);
    }
  }

  lemma MarkedPad(k: Secret, mark: seq<bv64>, b: nat)
    requires k.Valid() && |mark| == k.Size()
    ensures Marked(k, mark).Pad(b) == XorCells(k.Pad(b), mark)
  {
    hide XorCells, Limbs.Increment, Cipher.Rounds;
    var white := XorCells(Limbs.Increment(k.nonce, b % TWO_64), k.s.keys[0]);
    var n := |k.s.keys| - 2;
    RoundsIgnoreLast(k, mark, white, n);
    XorRegroup(Cipher.Rounds(k.s, white, n), k.s.keys[n + 1], mark);
  }

  lemma MarkedByte(k: Secret, mark: seq<bv64>, s: Spot)
    requires k.Valid() && |mark| == k.Size() && s.at < 8 * k.Size()
    ensures KeyByte(Marked(k, mark), s) == Xor8(KeyByte(k, s), ByteAt(mark[s.at / 8], s.at % 8))
  {
    hide ByteAt, Xor8, Xor, Secret.Pad, Secret.Valid, Secret.Size, Marked;
    MarkedPad(k, mark, s.block);
    ByteXor(k.Pad(s.block)[s.at / 8], mark[s.at / 8], s.at % 8);
  }

  function OneByte(i: nat): (c: bv64)
    requires i < 8
  {
    Pack(seq(8, t requires 0 <= t < 8 => if t == i then 1 as byte else 0))
  }

  lemma OneByteAt(i: nat, t: nat)
    requires i < 8 && t < 8
    ensures ByteAt(OneByte(i), t) == if t == i then 1 else 0
  {
    hide Pack, ByteAt;
    ByteOfPack(seq(8, t requires 0 <= t < 8 => if t == i then 1 as byte else 0), t);
  }

  lemma ZeroAt(t: nat)
    requires t < 8
    ensures ByteAt(0, t) == 0
  {}

  lemma Flips(a: byte)
    ensures Xor8(a, 1) != a
    ensures Xor8(a, 0) == a
  {}

  // Whatever the secret, it or the same one with a bit of its last key flipped has different keystream
  // bytes at two different positions.
  lemma TellApart(k: Secret, s: Spot, t: Spot) returns (q: Secret)
    requires k.Valid() && s.at < 8 * k.Size() && t.at < 8 * k.Size() && s.at != t.at
    ensures SameButLast(k, q) && q.Size() == k.Size()
    ensures KeyByte(q, s) != KeyByte(q, t)
  {
    hide KeyByte, OneByte, ByteAt, Xor8, Secret.Valid, Secret.Size, Marked;
    var mark := Filled<bv64>(k.Size(), 0)[s.at / 8 := OneByte(s.at % 8)];
    MarkedByte(k, mark, s);
    MarkedByte(k, mark, t);
    OneByteAt(s.at % 8, s.at % 8);
    OneByteAt(s.at % 8, t.at % 8);
    ZeroAt(t.at % 8);
    Flips(KeyByte(k, s));
    Flips(KeyByte(k, t));
    q := if KeyByte(k, s) != KeyByte(k, t) then k else Marked(k, mark);
  }

  // ----- what the reader can read back -----

  // The reader's sizes put every byte where the writer's did.
  predicate Mirrors(g: nat, sizes: seq<nat>, n: nat)
    requires g > 0
  {
    Layout(g, sizes) == Layout(g, ReadSizes(n))
  }

  ghost predicate ReadsBack(k: Secret, mac: Mac, chunks: seq<seq<byte>>)
    requires k.Valid()
  {
    ReadImage(k, mac, SealedFile(k, mac, chunks)) == Some(Concat(chunks))
  }

  lemma MirrorsReadsBack(k: Secret, mac: Mac, chunks: seq<seq<byte>>)
    requires k.Valid()
    ensures k.Size() > 0
    ensures Mirrors(8 * k.Size(), Sizes(chunks), |Concat(chunks)|) ==> ReadsBack(k, mac, chunks)
  {
    hide Secret.Valid, Secret.Size, Keyed, KeyByte, Layout, ReadImage;
    SizePositive(k);
    var plain := Concat(chunks);
    var pieces := Cut(UPLOAD_CHUNK_SIZE, plain);
    if Mirrors(8 * k.Size(), Sizes(chunks), |plain|) {
      CutConcat(UPLOAD_CHUNK_SIZE, plain);
      CutSizes(plain);
      forall p | 0 <= p < |plain| ensures Keyed(k, chunks)[p] == Keyed(k, pieces)[p] {
        KeyedIs(k, chunks, p);
        KeyedIs(k, pieces, p);
      }
      ReadBackIff(k, mac, chunks);
    }
  }

  // Sizes that do not mirror the reader's lose the picture under some key next to any given one.
  lemma SomeKeyFails(k: Secret, mac: Mac, chunks: seq<seq<byte>>) returns (q: Secret)
    requires k.Valid() && k.Size() > 0 && !Mirrors(8 * k.Size(), Sizes(chunks), |Concat(chunks)|)
    ensures SameButLast(k, q) && !ReadsBack(q, mac, chunks)
  {
    hide Keyed, KeyByte, Layout, ReadImage, SealedFile, Secret.Valid, Secret.Size, Cut, Concat, ReadSizes, Sizes;
    var g := 8 * k.Size();
    var plain := Concat(chunks);
    var pieces := Cut(UPLOAD_CHUNK_SIZE, plain);
    CutConcat(UPLOAD_CHUNK_SIZE, plain);
    CutSizes(plain);
    LayoutLength(g, chunks);
    LayoutLength(g, pieces);
    var x, y := Layout(g, Sizes(chunks)), Layout(g, Sizes(pieces));
    var p := Differ(g, Sizes(chunks), Sizes(pieces));
    q := TellApart(k, x[p], y[p]);
    KeyedIs(q, chunks, p);
    KeyedIs(q, pieces, p);
    ReadBackIff(q, mac, chunks);
  }

  lemma Differ(g: nat, a: seq<nat>, b: seq<nat>) returns (p: nat)
    requires g > 0 && |Layout(g, a)| == |Layout(g, b)| && Layout(g, a) != Layout(g, b)
    ensures p < |Layout(g, a)| && Layout(g, a)[p].at != Layout(g, b)[p].at
  {
    hide Layout, Chained;
    var x, y := Layout(g, a), Layout(g, b);
    LayoutChained(g, a);
    LayoutChained(g, b);
    if forall p :: 0 <= p < |x| ==> x[p].at == y[p].at {
      PositionsDetermine(x, y, |x|);
    }
    p :| 0 <= p < |x| && x[p].at != y[p].at;
  }

  // Take any secret, whatever its schedule. A picture reads back under it and under every secret that
  // differs in the last whitening key only, exactly when its chunk sizes put every byte where the
  // reader's full chunks do.
  lemma ReadsBackNearIff(k: Secret, mac: Mac, chunks: seq<seq<byte>>)
    requires k.Valid()
    ensures k.Size() > 0
    ensures Mirrors(8 * k.Size(), Sizes(chunks), |Concat(chunks)|)
            <==> forall q :: SameButLast(k, q) ==> ReadsBack(q, mac, chunks)
  {
    hide ReadsBack, Mirrors, Secret.Valid;
    SizePositive(k);
    if Mirrors(8 * k.Size(), Sizes(chunks), |Concat(chunks)|) {
      forall q | SameButLast(k, q) ensures ReadsBack(q, mac, chunks) {
        MirrorsReadsBack(q, mac, chunks);
      }
    } else {
      var q := SomeKeyFails(k, mac, chunks);
    }
  }

  // A schedule of n zero keys.
  function Plain(w: nat, h: nat, n: nat): (k: Secret)
    requires ValidDims(w, h) && n >= 2
    ensures k.Valid() && k.s.w == w && k.s.h == h && |k.s.keys| == n && k.Size() == Area(w, h)
  {
    var zero := Filled<bv64>(Area(w, h), 0);
    Secret(Cipher.Schedule(w, h, Filled(n, zero), Filled(n - 2, Filled<nat>(h, 0))), zero)
  }

  // So for every number of round keys: a picture reads back under every schedule of that many keys
  // exactly when its chunk sizes mirror the reader's.
  lemma ReadsBackIff(w: nat, h: nat, n: nat, mac: Mac, chunks: seq<seq<byte>>)
    requires ValidDims(w, h) && n >= 2
    ensures Area(w, h) > 0
    ensures Mirrors(8 * Area(w, h), Sizes(chunks), |Concat(chunks)|)
            <==> forall k: Secret :: k.Valid() && k.s.w == w && k.s.h == h && |k.s.keys| == n ==> ReadsBack(k, mac, chunks)
  {
    hide ReadsBack, Mirrors, Secret.Valid, Plain;
    AreaPositive(w, h);
    if Mirrors(8 * Area(w, h), Sizes(chunks), |Concat(chunks)|) {
      forall k: Secret | k.Valid() && k.s.w == w && k.s.h == h && |k.s.keys| == n ensures ReadsBack(k, mac, chunks) {
        MirrorsReadsBack(k, mac, chunks);
      }
    } else {
      var q := SomeKeyFails(Plain(w, h, n), mac, chunks);
    }
  }

  // ----- a first chunk that stops short -----

  lemma {:induction false} SpotIsRemainder(g: nat, q: nat)
    requires g > 0
    ensures SpotAt(g, q).at == q % g
  {
    if q >= g {
      SpotIsRemainder(g, q - g);
      Divided(q, g, (q - g) / g + 1, (q - g) % g);
    }
  }

  lemma {:induction false} LayoutFirst(g: nat, sizes: seq<nat>, p: nat)
    requires g > 0 && sizes != [] && p < sizes[0]
    ensures p < |Layout(g, sizes)| && Layout(g, sizes)[p] == SpotAt(g, p)
    decreases |sizes|
  {
    hide SpotAt;
    if |sizes| > 1 {
      LayoutFirst(g, sizes[..|sizes| - 1], p);
    } else {
      assert sizes[..0] == [];
    }
  }

  lemma LayoutOne(g: nat, sizes: seq<nat>)
    requires g > 0 && |sizes| == 1
    ensures |Layout(g, sizes)| == sizes[0]
  {
    assert sizes[..0] == [];
  }

  // What follows the first chunk starts a block.
  lemma {:induction false} LayoutSecond(g: nat, sizes: seq<nat>)
    requires g > 0 && sizes != [] && |Layout(g, sizes)| > sizes[0]
    ensures Layout(g, sizes)[sizes[0]].at == 0
    decreases |sizes|
  {
    if |sizes| == 1 {
      LayoutOne(g, sizes);
    } else {
      var init := sizes[..|sizes| - 1];
      if |Layout(g, init)| > sizes[0] {
        LayoutSecond(g, init);
      } else if sizes[0] > 0 {
        LayoutFirst(g, init, sizes[0] - 1);
      }
    }
  }

  // A first chunk that is neither full nor a whole number of grids, with anything after it, does not
  // read back: next to every secret there is one under which it fails.
  lemma ShortFirstChunkFails(k: Secret, mac: Mac, chunks: seq<seq<byte>>) returns (q: Secret)
    requires k.Valid() && k.Size() > 0 && chunks != []
    requires |chunks[0]| < UPLOAD_CHUNK_SIZE && |chunks[0]| % (8 * k.Size()) != 0
    requires |Concat(chunks)| > |chunks[0]|
    ensures SameButLast(k, q) && !ReadsBack(q, mac, chunks)
  {
    hide ReadsBack, Secret.Valid, Secret.Size, Concat, Layout, SpotAt;
    var g, p, total := 8 * k.Size(), |chunks[0]|, |Concat(chunks)|;
    LayoutLength(g, chunks);
    LayoutSecond(g, Sizes(chunks));
    assert ReadSizes(total)[0] > p;
    LayoutFirst(g, ReadSizes(total), p);
    SpotIsRemainder(g, p);
    q := SomeKeyFails(k, mac, chunks);
  }

  // A picture whose first chunk is just the bitmap mark, which the server takes, and one more byte.
  lemma BitmapFails(k: Secret, mac: Mac, b: byte) returns (q: Secret)
    requires k.Valid()
    ensures IsImage([0x42, 0x4D])
    ensures SameButLast(k, q) && !ReadsBack(q, mac, [[0x42, 0x4D], [b]])
  {
    hide ReadsBack, Secret.Valid;
    SizePositive(k);
    var chunks: seq<seq<byte>> := [[0x42, 0x4D], [b]];
    assert Concat(chunks) == [0x42, 0x4D, b] by {
      ConcatSplit([0x42, 0x4D], [[b]]);
      ConcatSplit([b], []);
      assert [[b]] == [[b]] + [] && chunks == [[0x42, 0x4D]] + [[b]];
    }
    Divided(2, 8 * k.Size(), 0, 2);
    BitmapMark();
    q := ShortFirstChunkFails(k, mac, chunks);
  }

  lemma BitmapMark()
    ensures IsImage([0x42, 0x4D])
  {
    assert MAGIC[4] <= [0x42, 0x4D];
  }
}
