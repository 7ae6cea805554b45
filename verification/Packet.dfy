/** Authenticated one-shot packets: serialization and parsing (core/src/auth.rs), and the chat
    packets built on them (chat/src/crypto/mod.rs, encrypt_packet and decrypt_packet). */
module AuthSpec {
  import opened Bytes
  import opened Rows
  import opened Layers
  import opened StreamSpec
  import opened StreamRuns
  import opened Streams
  import opened Grids
  import PacketSpec

  const MAC_SIZE: nat := 32

  // Tag, nonce and ciphertext grids; no key.
  datatype Packet = Packet(mac: PacketSpec.Tag, nonce: seq<bv64>, output: seq<seq<bv64>>) {
    predicate Sized(size: nat) {
      |nonce| == size && forall i :: 0 <= i < |output| ==> |output[i]| == size
    }
  }

  // [tag][nonce grid][ciphertext grids], every cell big-endian.
  function Serialize(p: Packet): seq<byte> {
    p.mac + Content(p.nonce, p.output)
  }

  // What the MAC is fed.
  function Content(nonce: seq<bv64>, output: seq<seq<bv64>>): seq<byte> {
    CellsToBytes(nonce + Flatten(output))
  }

  function GridBytes(w: nat, h: nat): nat { Area(w, h) * 8 }

  // Grids out of a byte string that has to be a whole number of them.
  function FromBytes(w: nat, h: nat, b: seq<byte>): (r: Result<seq<seq<bv64>>>)
    requires Area(w, h) > 0
  {
    if |b| % GridBytes(w, h) != 0 then Err(InvalidByteLength(GridBytes(w, h), |b|))
    else if b != [] && !ValidDims(w, h) then Err(InvalidDimensions(w, h))
    else Ok(Chunks(Area(w, h), BytesToCells(b)))
  }

  function Parse(w: nat, h: nat, b: seq<byte>): (r: Result<Packet>)
    requires Area(w, h) > 0
  {
    if |b| < MAC_SIZE + GridBytes(w, h) then Err(InvalidByteLength(GridBytes(w, h), |b|))
    else
      match FromBytes(w, h, b[MAC_SIZE..])
      case Err(e) => Err(e)
      case Ok(grids) =>
        WholeGrids(w, h, b[MAC_SIZE..]);
        Ok(Packet(b[..MAC_SIZE], grids[0], grids[1..]))
  }

  // ----- cells and bytes in bulk -----

  lemma BytesBack(b: seq<byte>)
    requires |b| % 8 == 0
    ensures CellsToBytes(BytesToCells(b)) == b
  {
    hide BytesToCells, CellsToBytes;
    forall j | 0 <= j < |b| ensures CellsToBytes(BytesToCells(b))[j] == b[j] {
      CellsOfBytes(b, j);
    }
  }

  lemma CellsBack(c: seq<bv64>)
    ensures BytesToCells(CellsToBytes(c)) == c
  {
    hide Pack, ByteAt;
    var b := CellsToBytes(c);
    forall i | 0 <= i < |c| ensures BytesToCells(b)[i] == c[i] {
      var chunk := seq(8, t requires 0 <= t < 8 => ByteOrZero(b, 8 * i + t));
      forall t | 0 <= t < 8 ensures chunk[t] == Unpack(c[i])[t] {
        var j := 8 * i + t;
        assert j / 8 == i && j % 8 == t && j < |b|;
        assert chunk[t] == ByteOrZero(b, 8 * i + t);
        assert ByteOrZero(b, j) == b[j];
        assert b[j] == ByteAt(c[j / 8], j % 8);
        assert Unpack(c[i])[t] == ByteAt(c[i], t);
      }
      assert chunk == Unpack(c[i]);
      PackUnpack(c[i]);
    }
  }

  lemma {:induction false} ChunksCount(size: nat, x: seq<bv64>, n: nat)
    requires size > 0 && |x| == Area(size, n)
    ensures |Chunks(size, x)| == n && Flatten(Chunks(size, x)) == x
    decreases n
  {
    if n > 0 {
      AreaFront(size, n);
      ChunksCount(size, x[size..], n - 1);
      assert x == x[..size] + x[size..];
    }
  }

  // A nonempty whole number of grids yields at least one.
  lemma WholeGrids(w: nat, h: nat, b: seq<byte>)
    requires Area(w, h) > 0 && |b| >= GridBytes(w, h) && |b| % GridBytes(w, h) == 0
    ensures var n := |b| / GridBytes(w, h);
            && n >= 1 && |b| % 8 == 0 && |BytesToCells(b)| == Area(Area(w, h), n)
            && |Chunks(Area(w, h), BytesToCells(b))| == n
            && Flatten(Chunks(Area(w, h), BytesToCells(b))) == BytesToCells(b)
  {
    hide BytesToCells, Chunks;
    var size := Area(w, h);
    var n := |b| / (size * 8);
    assert |b| == n * (size * 8);
    assert n * (size * 8) == (n * size) * 8;
    AreaIsProduct(size, n);
    assert size * n == n * size;
    ChunksCount(size, BytesToCells(b), n);
  }

  // ----- parsing inverts serialization, and conversely -----

  lemma SerializedLength(p: Packet, w: nat, h: nat)
    requires p.Sized(Area(w, h))
    ensures |Serialize(p)| == MAC_SIZE + (1 + |p.output|) * GridBytes(w, h)
  {
    hide CellsToBytes;
    var size := Area(w, h);
    FlatLength(size, p.output);
    AreaIsProduct(size, |p.output|);
    assert 8 * (size + size * |p.output|) == (1 + |p.output|) * (size * 8);
  }

  lemma {:induction false} FlatLength(size: nat, g: seq<seq<bv64>>)
    requires forall i :: 0 <= i < |g| ==> |g[i]| == size
    ensures |Flatten(g)| == Area(size, |g|)
  {
    if g != [] {
      FlatLength(size, g[1..]);
      AreaFront(size, |g|);
    }
  }

  // Grid g of a packet: the nonce, then the ciphertext grids.
  function GridOf(p: Packet, g: nat): seq<bv64>
    requires g <= |p.output|
  {
    if g == 0 then p.nonce else p.output[g - 1]
  }

  // Where every byte of a packet is: the tag, then grid after grid, cell after cell, most significant byte
  // first.
  lemma SerializedAt(p: Packet, size: nat, g: nat, j: nat, t: nat)
    requires p.Sized(size) && g <= |p.output| && j < size && t < 8
    ensures 32 + 8 * (Area(size, g) + j) + t < |Serialize(p)|
    ensures Serialize(p)[..32] == p.mac
    ensures Serialize(p)[32 + 8 * (Area(size, g) + j) + t] == ByteAt(GridOf(p, g)[j], t)
  {
    hide ByteAt, Flatten, CellsToBytes;
    var grids := [p.nonce] + p.output;
    FlattenFront(p.nonce, p.output);
    FlattenAt(size, grids, g, j);
    ByteOfCell(p.nonce + Flatten(p.output), Area(size, g) + j, t);
  }

  lemma ByteOfCell(cells: seq<bv64>, i: nat, t: nat)
    requires i < |cells| && t < 8
    ensures CellsToBytes(cells)[8 * i + t] == ByteAt(cells[i], t)
  {
    hide ByteAt;
    assert (8 * i + t) / 8 == i && (8 * i + t) % 8 == t;
  }

  lemma {:induction false} FlattenAt(size: nat, grids: seq<seq<bv64>>, g: nat, j: nat)
    requires g < |grids| && j < size && forall i :: 0 <= i < |grids| ==> |grids[i]| == size
    ensures Area(size, g) + j < |Flatten(grids)| && Flatten(grids)[Area(size, g) + j] == grids[g][j]
    decreases g
  {
    if g > 0 {
      AreaFront(size, g);
      FlattenAt(size, grids[1..], g - 1, j);
    }
  }

  // What a packet that does not parse is refused with: the whole length when it is too short for a tag
  // and a nonce, the length after the tag when that is no whole number of grids.
  lemma ParseErrors(w: nat, h: nat, b: seq<byte>)
    requires ValidDims(w, h)
    ensures Area(w, h) > 0
    ensures Parse(w, h, b).Err? ==>
      Parse(w, h, b).error == InvalidByteLength(8 * Area(w, h), if |b| < 32 + 8 * Area(w, h) then |b| else |b| - 32)
  {
    hide BytesToCells, Chunks, Area;
    AreaPositive(w, h);
  }

  lemma ParseSerialized(p: Packet, w: nat, h: nat)
    requires ValidDims(w, h) && p.Sized(Area(w, h))
    ensures Area(w, h) > 0 && Parse(w, h, Serialize(p)) == Ok(p)
  {
    hide CellsToBytes, BytesToCells, Chunks, Flatten, Area;
    AreaPositive(w, h);
    var size := Area(w, h);
    var grids := [p.nonce] + p.output;
    var b := Serialize(p);
    var content := Content(p.nonce, p.output);
    assert b[MAC_SIZE..] == content && b[..MAC_SIZE] == p.mac;
    SerializedLength(p, w, h);
    Multiple(1 + |p.output|, GridBytes(w, h));
    CellsBack(p.nonce + Flatten(p.output));
    FlattenFront(p.nonce, p.output);
    ChunksOfFlat(size, grids);
    assert grids[0] == p.nonce && grids[1..] == p.output;
  }

  lemma FlattenFront(a: seq<bv64>, rest: seq<seq<bv64>>)
    ensures Flatten([a] + rest) == a + Flatten(rest)
  {
    assert ([a] + rest)[1..] == rest;
  }

  lemma Multiple(n: nat, d: nat)
    requires d > 0 && n >= 1
    ensures (n * d) % d == 0 && n * d >= d
  {
    Divided(n * d, d, n, 0);
    assert n * d == d + (n - 1) * d;
  }

  // Parsing succeeds exactly on a tag followed by one or more whole grids, and serializing the
  // result gives the bytes back.
  lemma ParseIff(w: nat, h: nat, b: seq<byte>)
    requires ValidDims(w, h)
    ensures Area(w, h) > 0
    ensures Parse(w, h, b).Ok? <==> exists n: nat :: n >= 1 && |b| == MAC_SIZE + n * GridBytes(w, h)
    ensures Parse(w, h, b).Ok? ==> Parse(w, h, b).value.Sized(Area(w, h)) && Serialize(Parse(w, h, b).value) == b
  {
    hide CellsToBytes, BytesToCells, Chunks, Flatten, Area;
    AreaPositive(w, h);
    var g := GridBytes(w, h);
    if Parse(w, h, b).Ok? {
      var content := b[MAC_SIZE..];
      var n := |content| / g;
      assert |content| == n * g;
      WholeGrids(w, h, content);
      var grids := Chunks(Area(w, h), BytesToCells(content));
      assert grids == [grids[0]] + grids[1..];
      FlattenFront(grids[0], grids[1..]);
      BytesBack(content);
      assert b == b[..MAC_SIZE] + content;
    }
    if n: nat :| n >= 1 && |b| == MAC_SIZE + n * g {
      Multiple(n, g);
    }
  }
}

/** The serialization loops over grid objects. */
module Auth {
  import opened Bytes
  import opened Rows
  import opened StreamRuns
  import opened Grids
  import opened AuthSpec
  import PacketSpec
  import Streams

  lemma BytesAppend(x: seq<bv64>, c: bv64)
    ensures CellsToBytes(x + [c]) == CellsToBytes(x) + Unpack(c)
  {
    hide ByteAt;
  }

  lemma BytesConcat(x: seq<bv64>, y: seq<bv64>)
    ensures CellsToBytes(x + y) == CellsToBytes(x) + CellsToBytes(y)
  {
    hide ByteAt;
    var a, b := CellsToBytes(x + y), CellsToBytes(x) + CellsToBytes(y);
    forall j | 0 <= j < |a| ensures a[j] == b[j] {
      if j >= 8 * |x| {
        assert (j - 8 * |x|) / 8 == j / 8 - |x| && (j - 8 * |x|) % 8 == j % 8;
      }
    }
  }

  // Feeds one grid, cell by cell in row order.
  method FeedGrid(grid: Grid) returns (bytes: seq<byte>)
    requires grid.Valid()
    ensures bytes == CellsToBytes(grid.cells[..])
  {
    hide CellsToBytes, Unpack;
    bytes := [];
    assert CellsToBytes([]) == [] by { NoBytes(); }
    for r := 0 to grid.h
      invariant Area(grid.w, r) <= grid.cells.Length
      invariant bytes == CellsToBytes(grid.cells[..Area(grid.w, r)])
    {
      AreaGrows(grid.w, r, grid.h);
      for c := 0 to grid.w
        invariant bytes == CellsToBytes(grid.cells[..Area(grid.w, r) + c])
      {
        var i := Area(grid.w, r) + c;
        assert grid.cells[..i + 1] == grid.cells[..i] + [grid.cells[i]];
        BytesAppend(grid.cells[..i], grid.cells[i]);
        bytes := bytes + Unpack(grid.cells[i]);
      }
    }
    assert grid.cells[..grid.cells.Length] == grid.cells[..];
  }

  lemma NoBytes()
    ensures CellsToBytes([]) == []
  {}

  // The bytes of nonce and ciphertext: what the MAC is fed, and what follows it in a packet.
  method FeedAll(nonce: Grid, output: seq<Grid>) returns (bytes: seq<byte>)
    requires nonce.Valid() && forall g :: g in output ==> g.Valid()
    ensures bytes == Content(nonce.cells[..], Cells(output))
  {
    hide CellsToBytes, Flatten;
    ghost var cells := Cells(output);
    bytes := FeedGrid(nonce);
    assert nonce.cells[..] + Flatten(cells[..0]) == nonce.cells[..] by { Streams.FlattenNothing(cells[..0]); }
    for i := 0 to |output|
      invariant bytes == CellsToBytes(nonce.cells[..] + Flatten(cells[..i]))
    {
      var more := FeedGrid(output[i]);
      assert cells[..i + 1] == cells[..i] + [cells[i]];
      Streams.FlattenLast(cells[..i], cells[i]);
      BytesConcat(nonce.cells[..] + Flatten(cells[..i]), cells[i]);
      assert nonce.cells[..] + Flatten(cells[..i + 1]) == nonce.cells[..] + Flatten(cells[..i]) + cells[i];
      bytes := bytes + more;
    }
    assert cells[..|output|] == cells;
  }

  // Tag, nonce, ciphertext.
  method SerializePacket(mac: PacketSpec.Tag, nonce: Grid, output: seq<Grid>) returns (bytes: seq<byte>)
    requires nonce.Valid() && forall g :: g in output ==> g.Valid()
    ensures bytes == Serialize(Packet(mac, nonce.cells[..], Cells(output)))
  {
    hide CellsToBytes, Flatten, Content;
    var content := FeedAll(nonce, output);
    bytes := mac + content;
  }
}

/** Chat packets under the session keys. */
module SessionPackets {
  import opened Bytes
  import opened Rows
  import opened Layers
  import opened Cipher
  import opened StreamSpec
  import opened OneShotSpec
  import opened AuthSpec
  import PacketSpec
  import Auth
  import opened StreamRuns

  datatype SharedKeys = SharedKeys(grid: seq<bv64>, hmac: seq<byte>)

  // The primitives that stay uninterpreted: stretching a key of the wrong size (HKDF), expanding a
  // key into a round schedule (SHA-256 and ChaCha20), and the MAC under a key.
  datatype Primitives = Primitives(
    stretch: seq<bv64> -> seq<bv64>,
    schedule: seq<bv64> -> Schedule,
    mac: (seq<byte>, seq<byte>) -> PacketSpec.Tag)

  // stretch yields a key of 2wh cells, and such a key expands to a schedule of w x h grids.
  ghost predicate Sound(f: Primitives, w: nat, h: nat) {
    && ValidDims(w, h)
    && (forall key :: |f.stretch(key)| == 2 * Area(w, h))
    && (forall key :: |key| == 2 * Area(w, h) ==>
          f.schedule(key).Valid() && f.schedule(key).w == w && f.schedule(key).h == h)
  }

  // The key that is used: the session key, stretched if it has the wrong size.
  function UsableKey(f: Primitives, w: nat, h: nat, keys: SharedKeys): seq<bv64> {
    if |keys.grid| == 2 * Area(w, h) then keys.grid else f.stretch(keys.grid)
  }

  lemma UsableKeyExpands(f: Primitives, w: nat, h: nat, keys: SharedKeys, nonce: seq<bv64>)
    requires Sound(f, w, h) && |nonce| == Area(w, h)
    ensures Secret(f.schedule(UsableKey(f, w, h, keys)), nonce).Valid()
    ensures Secret(f.schedule(UsableKey(f, w, h, keys)), nonce).Size() == Area(w, h)
  {}

  // The nonce is drawn at random by the caller. The HMAC key must be 32 bytes or the code panics.
  function EncryptPacket(f: Primitives, w: nat, h: nat, packet: seq<byte>, keys: SharedKeys, nonce: seq<bv64>): seq<byte>
    requires Sound(f, w, h) && |nonce| == Area(w, h) && |keys.hmac| == 32
  {
    UsableKeyExpands(f, w, h, keys, nonce);
    var output := EncryptGrids(Secret(f.schedule(UsableKey(f, w, h, keys)), nonce), BytesToCells(packet));
    Serialize(Packet(f.mac(keys.hmac, Content(nonce, output)), nonce, output))
  }

  // None for a packet that does not parse, a MAC key of the wrong size, or a tag that fails.
  function DecryptPacket(f: Primitives, w: nat, h: nat, data: seq<byte>, keys: SharedKeys): PacketSpec.Opened
    requires Sound(f, w, h)
  {
    AreaPositive(w, h);
    match Parse(w, h, data)
    case Err(_) => PacketSpec.Rejected
    case Ok(p) =>
      ParseIff(w, h, data);
      if |keys.hmac| != 32 then PacketSpec.Rejected
      else if f.mac(keys.hmac, Content(p.nonce, p.output)) != p.mac then PacketSpec.Rejected
      else
        UsableKeyExpands(f, w, h, keys, p.nonce);
        PacketSpec.Accepted(CellsToBytes(DecryptCells(Secret(f.schedule(UsableKey(f, w, h, keys)), p.nonce), p.output)))
  }

  // Every packet comes back, zero-padded to whole grids, whether or not the key was stretched.
  lemma PacketRoundTrip(f: Primitives, w: nat, h: nat, packet: seq<byte>, keys: SharedKeys, nonce: seq<bv64>)
    requires Sound(f, w, h) && |nonce| == Area(w, h) && |keys.hmac| == 32
    ensures var r := DecryptPacket(f, w, h, EncryptPacket(f, w, h, packet, keys, nonce), keys);
            && r.Accepted?
            && packet <= r.plaintext
            && (forall j :: |packet| <= j < |r.plaintext| ==> r.plaintext[j] == 0)
            && GridBytes(w, h) > 0
            && |r.plaintext| % GridBytes(w, h) == 0
            && |r.plaintext| < |packet| + GridBytes(w, h)
  {
    hide Sound, EncryptGrids, DecryptCells, CellsToBytes, BytesToCells, OneShotSpec.Padded, Content, Serialize, Parse, Secret.Valid, Secret.Size;
    UsableKeyExpands(f, w, h, keys, nonce);
    var k := Secret(f.schedule(UsableKey(f, w, h, keys)), nonce);
    var cells := BytesToCells(packet);
    var output := EncryptGrids(k, cells);
    assert ValidDims(w, h) by { Dims(f, w, h); }
    ParseSerialized(Packet(f.mac(keys.hmac, Content(nonce, output)), nonce, output), w, h);
    DecryptEncrypt(k, cells);
    PaddedBytes(w, h, packet);
  }

  // What goes out: a tag over everything after it under the MAC key, the nonce, and ciphertext whose
  // first bytes are the packet's as a fresh stream encrypts them, under the session key or, if that has
  // the wrong size, the key stretched from it.
  lemma EncryptPacketIs(f: Primitives, w: nat, h: nat, packet: seq<byte>, keys: SharedKeys, nonce: seq<bv64>)
    requires Sound(f, w, h) && |nonce| == Area(w, h) && |keys.hmac| == 32
    ensures var key := if |keys.grid| == 2 * Area(w, h) then keys.grid else f.stretch(keys.grid);
            var k := Secret(f.schedule(key), nonce);
            var b := EncryptPacket(f, w, h, packet, keys, nonce);
            var from := 32 + 8 * Area(w, h);
            && k.Valid()
            && |b| >= from + |packet|
            && b[..32] == f.mac(keys.hmac, b[32..])
            && b[32..from] == CellsToBytes(nonce)
            && b[from..from + |packet|] == PacketSpec.StreamBytes(k, 0, packet)
  {
    hide Sound, EncryptGrids, CellsToBytes, BytesToCells, OneShotSpec.Padded, Secret.Valid, Secret.Size, CtrCells;
    UsableKeyExpands(f, w, h, keys, nonce);
    var k := Secret(f.schedule(UsableKey(f, w, h, keys)), nonce);
    var cells := BytesToCells(packet);
    var out := Flatten(EncryptGrids(k, cells));
    EncryptIsCtr(k, cells);
    PaddedExtends(k.Size(), cells);
    CtrPrefix(k, 0, cells, OneShotSpec.Padded(k.Size(), cells));
    CtrLength(k, 0, cells);
    assert out == CtrCells(k, 0, cells) + out[|cells|..];
    BytesInThree(nonce, CtrCells(k, 0, cells), out[|cells|..]);
  }

  lemma PaddedExtends(size: nat, cells: seq<bv64>)
    requires size > 0
    ensures cells <= OneShotSpec.Padded(size, cells)
  {}

  lemma BytesInThree(a: seq<bv64>, b: seq<bv64>, c: seq<bv64>)
    ensures CellsToBytes(a + (b + c)) == CellsToBytes(a) + CellsToBytes(b) + CellsToBytes(c)
  {
    hide CellsToBytes;
    Auth.BytesConcat(a, b + c);
    Auth.BytesConcat(b, c);
  }

  // A packet is accepted exactly when it parses, the MAC key has 32 bytes, and the tag is the one over
  // everything after it.
  lemma DecryptAcceptsIff(f: Primitives, w: nat, h: nat, data: seq<byte>, keys: SharedKeys)
    requires Sound(f, w, h)
    ensures Area(w, h) > 0
    ensures DecryptPacket(f, w, h, data, keys).Accepted?
            <==> |data| >= 32 && Parse(w, h, data).Ok? && |keys.hmac| == 32 && f.mac(keys.hmac, data[32..]) == data[..32]
  {
    hide Sound, DecryptCells, CellsToBytes, Flatten, Secret.Valid, Secret.Size, FromBytes, UsableKey, Area;
    Dims(f, w, h);
    AreaPositive(w, h);
    ParseIff(w, h, data);
    if Parse(w, h, data).Ok? {
      var p := Parse(w, h, data).value;
      assert data == p.mac + Content(p.nonce, p.output);
    }
  }

  lemma Dims(f: Primitives, w: nat, h: nat)
    requires Sound(f, w, h)
    ensures ValidDims(w, h)
  {}

  lemma PaddedBytes(w: nat, h: nat, packet: seq<byte>)
    requires Area(w, h) > 0
    ensures var b := CellsToBytes(OneShotSpec.Padded(Area(w, h), BytesToCells(packet)));
            && packet <= b
            && (forall j :: |packet| <= j < |b| ==> b[j] == 0)
            && |b| % GridBytes(w, h) == 0 && |b| < |packet| + GridBytes(w, h)
  {
    hide Area, BytesToCells, CellsToBytes, OneShotSpec.Padded, PadChunks, Missing;
    var size := Area(w, h);
    var cells := BytesToCells(packet);
    var b := CellsToBytes(OneShotSpec.Padded(size, cells));
    forall j | 0 <= j < |b| ensures b[j] == ByteOrZero(packet, j) {
      PaddedByte(size, packet, j);
    }
    PadChunksFlat(size, cells);
    WholeBytes(size, |PadChunks(size, cells)|);
    MissingBound(size, |packet|);
  }

  lemma PaddedByte(size: nat, packet: seq<byte>, j: nat)
    requires size > 0 && j < 8 * |OneShotSpec.Padded(size, BytesToCells(packet))|
    ensures CellsToBytes(OneShotSpec.Padded(size, BytesToCells(packet)))[j] == ByteOrZero(packet, j)
  {
    hide ByteAt, Pack, Missing;
    var cells := BytesToCells(packet);
    if j < 8 * |cells| {
      CellsOfBytes(packet, j);
    } else {
      ZeroByte(j % 8);
    }
  }

  lemma WholeBytes(size: nat, n: nat)
    requires size > 0
    ensures (8 * Area(size, n)) % (size * 8) == 0
  {
    AreaIsProduct(size, n);
    assert 8 * (size * n) == n * (size * 8);
    if n > 0 { Multiple(n, size * 8); }
  }

  lemma ZeroByte(i: nat)
    requires i < 8
    ensures ByteAt(0, i) == 0
  {}

  lemma {:induction false} MissingBound(size: nat, n: nat)
    requires size > 0
    ensures 8 * ((n + 7) / 8 + Missing(size, (n + 7) / 8)) < n + size * 8
  {
    hide Missing;
    assert Missing(size, (n + 7) / 8) <= size - 1;
    assert 8 * ((n + 7) / 8) < n + 8;
  }
}
