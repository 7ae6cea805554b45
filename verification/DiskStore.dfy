/** The sealed picture store (chat/src/network/file/server.rs, download and read_image;
    chat/src/crypto/mod.rs, disk_tag and disk_open). A picture is written chunk by chunk through
    one stream that is finalized after every chunk, and read back in chunks of a fixed size. */
module DiskSpec {
  import opened Wrappers
  import opened Bytes
  import opened StreamSpec
  import opened StreamRuns
  import opened PacketSpec

  const UPLOAD_CHUNK_SIZE: nat := 1_000_000
  const DISK_TAG_SIZE: nat := 32

  function Concat(chunks: seq<seq<byte>>): seq<byte> {
    if chunks == [] then [] else Concat(chunks[..|chunks| - 1]) + chunks[|chunks| - 1]
  }

  // Blocks spent on a run of chunks, each finalized on its own.
  function Spent(k: Secret, chunks: seq<seq<byte>>): nat
    requires k.Valid()
  {
    if chunks == [] then 0
    else Spent(k, chunks[..|chunks| - 1]) + Blocks(k, (|chunks[|chunks| - 1]| + 7) / 8)
  }

  // What the chunks leave on disk, before the tag.
  function Written(k: Secret, chunks: seq<seq<byte>>): (c: seq<byte>)
    requires k.Valid()
    ensures |c| == |Concat(chunks)|
  {
    if chunks == [] then []
    else
      var n := |chunks| - 1;
      Written(k, chunks[..n]) + StreamBytes(k, Spent(k, chunks[..n]), chunks[n])
  }

  // The keystream the chunks were combined with.
  function Keyed(k: Secret, chunks: seq<seq<byte>>): (p: seq<byte>)
    requires k.Valid()
    ensures |p| == |Concat(chunks)|
  {
    if chunks == [] then []
    else
      var n := |chunks| - 1;
      Keyed(k, chunks[..n]) + StreamBytes(k, Spent(k, chunks[..n]), Filled<byte>(|chunks[n]|, 0))
  }

  // What the file's MAC is fed.
  function DiskInput(ciphertext: seq<byte>, length: nat): seq<byte> {
    ciphertext + Be64(length)
  }

  // C || HMAC(C || be64(|C|))
  function DiskTag(mac: Mac, ciphertext: seq<byte>, length: nat): Tag {
    mac(DiskInput(ciphertext, length))
  }

  // A stored file is as many bytes as were taken, and 32 bytes of tag over those and the eight that spell
  // their number.
  lemma SealedFileIs(k: Secret, mac: Mac, chunks: seq<seq<byte>>)
    requires k.Valid()
    ensures var f, n := SealedFile(k, mac, chunks), |Concat(chunks)|;
            && |f| == n + 32
            && f[..n] == Written(k, chunks)
            && f[n..] == mac(f[..n] + Be64(n))
            && BeNat(Be64(n)) == n % TWO_64
  {
    hide Secret.Valid, Written, Be64;
    Be64Spells(|Concat(chunks)|);
  }

  function SealedFile(k: Secret, mac: Mac, chunks: seq<seq<byte>>): seq<byte>
    requires k.Valid()
  {
    var c := Written(k, chunks);
    c + DiskTag(mac, c, |c|)
  }

  // The ciphertext of a sealed file whose trailing tag verifies.
  function DiskOpen(mac: Mac, sealed: seq<byte>): Option<seq<byte>> {
    if |sealed| < DISK_TAG_SIZE then None
    else
      var c, tag := sealed[..|sealed| - DISK_TAG_SIZE], sealed[|sealed| - DISK_TAG_SIZE..];
      if DiskTag(mac, c, |c|) == tag then Some(c) else None
  }

  // How a supported picture begins (chat/src/misc.rs:230-252).
  const MAGIC: seq<seq<byte>> := [
    [0x89, 0x50, 0x4E, 0x47, 0x0D, 0x0A, 0x1A, 0x0A], // PNG
    [0xFF, 0xD8, 0xFF],                               // JPEG
    [0x47, 0x49, 0x46, 0x38, 0x37, 0x61],             // GIF87a
    [0x47, 0x49, 0x46, 0x38, 0x39, 0x61],             // GIF89a
    [0x42, 0x4D],                                     // BMP
    [0x00, 0x00, 0x01, 0x00],                         // ICO
    [0x71, 0x6F, 0x69, 0x66],                         // QOI
    [0x23, 0x3F],                                     // Radiance HDR
    [0x66, 0x61, 0x72, 0x62, 0x66, 0x65, 0x6C, 0x64], // farbfeld
    [0x44, 0x44, 0x53, 0x20]                          // DDS
  ]

  predicate IsSpace(b: byte) {
    b == 0x20 || b == 0x09 || b == 0x0A || b == 0x0C || b == 0x0D
  }

  predicate IsImage(header: seq<byte>) {
    || (exists i :: 0 <= i < |MAGIC| && MAGIC[i] <= header)
    || (|header| >= 12 && header[..4] == [0x52, 0x49, 0x46, 0x46] && header[8..12] == [0x57, 0x45, 0x42, 0x50])
    || (|header| >= 3 && header[0] == 0x50 && 0x31 <= header[1] <= 0x37 && IsSpace(header[2]))
  }

  // A file opens exactly when its last 32 bytes are the tag over the ones before them and their number.
  lemma DiskOpenIff(mac: Mac, sealed: seq<byte>)
    ensures DiskOpen(mac, sealed).Some? <==>
              |sealed| >= 32 && sealed[|sealed| - 32..] == mac(sealed[..|sealed| - 32] + Be64(|sealed| - 32))
    ensures DiskOpen(mac, sealed).Some? ==> DiskOpen(mac, sealed).value == sealed[..|sealed| - 32]
  {
    hide Be64;
  }

  // Pieces of n bytes; only the last may be shorter.
  function Cut(n: nat, b: seq<byte>): (c: seq<seq<byte>>)
    requires n > 0
    decreases |b|
  {
    if b == [] then [] else if |b| <= n then [b] else [b[..n]] + Cut(n, b[n..])
  }

  // The picture read back out of a sealed file.
  function ReadImage(k: Secret, mac: Mac, sealed: seq<byte>): Option<seq<byte>>
    requires k.Valid()
  {
    match DiskOpen(mac, sealed)
    case None => None
    case Some(c) => Some(Written(k, Cut(UPLOAD_CHUNK_SIZE, c)))
  }

  // How a well-behaved uploader cuts: full chunks, then one that is at most full.
  predicate Canonical(chunks: seq<seq<byte>>) {
    forall i :: 0 <= i < |chunks| ==>
      if i < |chunks| - 1 then |chunks[i]| == UPLOAD_CHUNK_SIZE else |chunks[i]| <= UPLOAD_CHUNK_SIZE
  }

  // ----- writing and reading are both a xor with a keystream -----

  lemma StreamBytesIsXor(k: Secret, spent: nat, b: seq<byte>)
    requires k.Valid()
    ensures StreamBytes(k, spent, b) == XorBytes(b, StreamBytes(k, spent, Filled<byte>(|b|, 0)))
  {
    hide Secret.Valid, CtrCells, CellsToBytes, Xor8;
    var pad := CellsToBytes(CtrCells(k, spent, Filled<bv64>((|b| + 7) / 8, 0)));
    AsXor(k, spent, b);
    AsXor(k, spent, Filled<byte>(|b|, 0));
    forall i | 0 <= i < |b|
      ensures XorBytes(b, pad)[i] == XorBytes(b, XorBytes(Filled<byte>(|b|, 0), pad))[i]
    {
      ByteZero(pad[i]);
    }
  }

  lemma {:induction false} WrittenIsXor(k: Secret, chunks: seq<seq<byte>>)
    requires k.Valid()
    ensures Written(k, chunks) == XorBytes(Concat(chunks), Keyed(k, chunks))
  {
    hide Secret.Valid, StreamBytes;
    if chunks != [] {
      var n := |chunks| - 1;
      WrittenIsXor(k, chunks[..n]);
      StreamBytesIsXor(k, Spent(k, chunks[..n]), chunks[n]);
    }
  }

  // The keystream depends on the lengths of the chunks only.
  lemma {:induction false} SameLengthsSameKey(k: Secret, x: seq<seq<byte>>, y: seq<seq<byte>>)
    requires k.Valid() && |x| == |y|
    requires forall i :: 0 <= i < |x| ==> |x[i]| == |y[i]|
    ensures Spent(k, x) == Spent(k, y) && Keyed(k, x) == Keyed(k, y)
  {
    hide Secret.Valid, StreamBytes, Blocks;
    if x != [] {
      SameLengthsSameKey(k, x[..|x| - 1], y[..|y| - 1]);
    }
  }

  lemma {:induction false} ConcatSplit(a: seq<byte>, rest: seq<seq<byte>>)
    ensures Concat([a] + rest) == a + Concat(rest)
    decreases |rest|
  {
    if rest == [] {
      assert [a][..0] == [];
      assert Concat([a]) == Concat([]) + a;
      assert [a] + rest == [a];
    } else {
      var n := |rest| - 1;
      assert ([a] + rest)[..n + 1] == [a] + rest[..n];
      ConcatSplit(a, rest[..n]);
    }
  }

  lemma {:induction false} CutConcat(n: nat, b: seq<byte>)
    requires n > 0
    ensures Concat(Cut(n, b)) == b
    decreases |b|
  {
    if b == [] {
    } else if |b| <= n {
      ConcatSplit(b, []);
      assert [b] + [] == [b];
    } else {
      CutConcat(n, b[n..]);
      ConcatSplit(b[..n], Cut(n, b[n..]));
    }
  }

  // The first chunk is full unless it is the only one.
  lemma {:induction false} CutLengths(chunks: seq<seq<byte>>, b: seq<byte>)
    requires Canonical(chunks) && |b| == |Concat(chunks)|
    requires chunks != [] ==> chunks[|chunks| - 1] != []
    ensures |Cut(UPLOAD_CHUNK_SIZE, b)| == |chunks|
    ensures forall i :: 0 <= i < |chunks| ==> |Cut(UPLOAD_CHUNK_SIZE, b)[i]| == |chunks[i]|
    decreases |chunks|
  {
    if chunks == [] {
    } else if |chunks| == 1 {
      assert chunks == [chunks[0]] + [];
      ConcatSplit(chunks[0], []);
    } else {
      assert chunks == [chunks[0]] + chunks[1..];
      ConcatSplit(chunks[0], chunks[1..]);
      ConcatNonempty(chunks[1..]);
      CutLengths(chunks[1..], b[UPLOAD_CHUNK_SIZE..]);
    }
  }

  lemma ConcatNonempty(chunks: seq<seq<byte>>)
    requires chunks != [] && chunks[|chunks| - 1] != []
    ensures |Concat(chunks)| > 0
  {}

  // An empty last chunk costs no block and no byte.
  lemma DropEmpty(k: Secret, chunks: seq<seq<byte>>)
    requires k.Valid() && chunks != [] && chunks[|chunks| - 1] == []
    ensures Concat(chunks) == Concat(chunks[..|chunks| - 1]) && Keyed(k, chunks) == Keyed(k, chunks[..|chunks| - 1])
  {
    hide Secret.Valid, StreamBytes;
  }

  // ----- the round trip -----

  lemma DiskOpenSealed(k: Secret, mac: Mac, chunks: seq<seq<byte>>)
    requires k.Valid()
    ensures DiskOpen(mac, SealedFile(k, mac, chunks)) == Some(Written(k, chunks))
  {
    hide Secret.Valid, Written;
    var c := Written(k, chunks);
    var sealed := SealedFile(k, mac, chunks);
    assert sealed[..|c|] == c && sealed[|c|..] == DiskTag(mac, c, |c|);
  }

  // However the upload was cut, the stored file verifies, and it reads back byte for byte exactly
  // when the cut spends the keystream as reading in full chunks does.
  lemma ReadBackIff(k: Secret, mac: Mac, chunks: seq<seq<byte>>)
    requires k.Valid()
    ensures ReadImage(k, mac, SealedFile(k, mac, chunks)).Some?
    ensures ReadImage(k, mac, SealedFile(k, mac, chunks)) == Some(Concat(chunks))
            <==> Keyed(k, Cut(UPLOAD_CHUNK_SIZE, Concat(chunks))) == Keyed(k, chunks)
  {
    hide Secret.Valid, Written, Keyed, SealedFile, XorBytes;
    DiskOpenSealed(k, mac, chunks);
    var plain, c := Concat(chunks), Written(k, chunks);
    var pieces := Cut(UPLOAD_CHUNK_SIZE, c);
    CutConcat(UPLOAD_CHUNK_SIZE, c);
    WrittenIsXor(k, chunks);
    WrittenIsXor(k, pieces);
    SameCut(UPLOAD_CHUNK_SIZE, c, plain);
    SameLengthsSameKey(k, pieces, Cut(UPLOAD_CHUNK_SIZE, plain));
    TwoKeys(plain, Keyed(k, chunks), Keyed(k, pieces));
  }

  lemma {:induction false} SameCut(n: nat, x: seq<byte>, y: seq<byte>)
    requires n > 0 && |x| == |y|
    ensures |Cut(n, x)| == |Cut(n, y)|
    ensures forall i :: 0 <= i < |Cut(n, x)| ==> |Cut(n, x)[i]| == |Cut(n, y)[i]|
    decreases |x|
  {
    if |x| > n { SameCut(n, x[n..], y[n..]); }
  }

  lemma TwoKeys(b: seq<byte>, p: seq<byte>, q: seq<byte>)
    requires |b| == |p| == |q|
    ensures XorBytes(XorBytes(b, p), q) == b <==> q == p
  {
    forall i | 0 <= i < |b| ensures XorBytes(XorBytes(b, p), q)[i] == b[i] <==> q[i] == p[i] {
      KeyAt(b, p, q, i);
    }
    hide XorBytes;
    if XorBytes(XorBytes(b, p), q) == b {
      assert forall i :: 0 <= i < |b| ==> XorBytes(XorBytes(b, p), q)[i] == b[i];
      assert q == p;
    } else if q == p {
      XorBytesTwice(b, p);
    }
  }

  lemma KeyAt(b: seq<byte>, p: seq<byte>, q: seq<byte>, i: nat)
    requires i < |b| == |p| == |q|
    ensures XorBytes(XorBytes(b, p), q)[i] == b[i] <==> q[i] == p[i]
  {
    hide Xor8;
    ByteCancel(b[i], p[i]);
    ByteCancel(Xor8(b[i], p[i]), q[i]);
  }

  // A picture uploaded in full chunks and a last one reads back byte for byte, although no
  // full chunk ends where a grid does.
  lemma CanonicalReadsBack(k: Secret, mac: Mac, chunks: seq<seq<byte>>)
    requires k.Valid() && Canonical(chunks)
    ensures ReadImage(k, mac, SealedFile(k, mac, chunks)) == Some(Concat(chunks))
  {
    hide Secret.Valid, Written, Keyed, SealedFile, ReadImage;
    ReadBackIff(k, mac, chunks);
    var plain := Concat(chunks);
    if chunks != [] && chunks[|chunks| - 1] == [] {
      var init := chunks[..|chunks| - 1];
      DropEmpty(k, chunks);
      CutLengths(init, plain);
      SameLengthsSameKey(k, Cut(UPLOAD_CHUNK_SIZE, plain), init);
    } else {
      CutLengths(chunks, plain);
      SameLengthsSameKey(k, Cut(UPLOAD_CHUNK_SIZE, plain), chunks);
    }
  }
}

/** The receive loop and the reader. */
module DiskStore {
  import opened Wrappers
  import opened Bytes
  import opened StreamSpec
  import opened StreamRuns
  import opened Streams
  import opened PacketSpec
  import opened PacketStreams
  import opened DiskSpec
  import Cipher

  datatype Outcome =
    | Refused                        // not the kind of file announced: the upload ends
    | Ignored                        // longer than a chunk may be: dropped, the upload goes on
    | TooLong                        // more than was announced: the upload ends
    | Running
    | HashMismatch                   // complete, but not the announced file
    | Malformed                      // the announced file, but no clip
    | Stored(image: seq<byte>)       // complete: sealed on disk, plaintext handed on

  class Upload {
    const stream: RexStream
    const mac: Mac
    const digest: seq<byte> -> Tag   // SHA-256
    const size: nat
    const hash: Tag
    const accepts: seq<byte> -> bool // what the first chunk received has to look like
    const decodes: seq<byte> -> bool // what a complete clip has to be; any picture will do
    var file: seq<byte>              // what the disk took
    var fed: seq<byte>               // what the MAC was fed
    var image: seq<byte>             // the plaintext, also what the hasher was fed
    var currentSize: nat
    var checked: bool                // the first chunk was looked at
    var open: bool                   // chunks are still taken
    ghost var chunks: seq<seq<byte>> // the chunks that were taken

    ghost predicate Valid()
      reads this, stream, stream.nonce.cells, (set g | g in stream.keys :: g.cells)
    {
      && stream.Valid() && stream.buffer == []
      && (open ==>
            && stream.spent == Spent(stream.k, chunks)
            && file == fed == Written(stream.k, chunks)
            && image == Concat(chunks)
            && currentSize == |image| <= size)
    }

    constructor (stream: RexStream, mac: Mac, digest: seq<byte> -> Tag, size: nat, hash: Tag,
                 accepts: seq<byte> -> bool, decodes: seq<byte> -> bool)
      requires stream.Valid() && stream.Now() == State(0, [])
      ensures Valid() && open && !checked && chunks == []
      ensures this.stream == stream && this.mac == mac && this.digest == digest && this.size == size && this.hash == hash
      ensures this.accepts == accepts && this.decodes == decodes
    {
      this.stream, this.mac, this.digest, this.size, this.hash := stream, mac, digest, size, hash;
      this.accepts, this.decodes := accepts, decodes;
      file, fed, image, currentSize, checked, open, chunks := [], [], [], 0, false, true, [];
    }

    // One received chunk: check the first, drop one that is too long, take any other. A first chunk that
    // is too long is checked and then dropped.
    method Chunk(data: seq<byte>) returns (o: Outcome)
      requires Valid() && open
      modifies this, stream`blockCounter, stream`buffer, stream`spent
      ensures Valid() && checked
      ensures o.Refused? <==> !old(checked) && !accepts(data)
      ensures o.Ignored? <==> !o.Refused? && |data| > 1_000_000
      ensures o.Refused? || o.Ignored? ==>
        unchanged(this`file, this`fed, this`image, this`currentSize, this`chunks) && unchanged(stream)
      ensures !o.Refused? && !o.Ignored? ==> chunks == old(chunks) + [data] && Settled(o)
      ensures open == (o.Ignored? || o.Running?)
    {
      hide Settled, Secret.Valid, Cipher.Schedule.Valid, Written, Concat, Spent;
      if !checked {
        checked := true;
        if !accepts(data) {
          open := false;
          return Refused;
        }
      }
      if |data| > UPLOAD_CHUNK_SIZE { return Ignored; }
      o := Take(data);
    }

    // What the outcome of a chunk that was taken says about the file.
    ghost predicate Settled(o: Outcome)
      reads this, stream
      requires stream.k.Valid()
    {
      && (o.TooLong? <==> |Concat(chunks)| > size)
      && (o.Running? <==> |Concat(chunks)| < size)
      && (!o.TooLong? && !o.Running? ==> |Concat(chunks)| == size && file == SealedFile(stream.k, mac, chunks))
      && (o.HashMismatch? ==> digest(Concat(chunks)) != hash)
      && (o.Malformed? ==> digest(Concat(chunks)) == hash && !decodes(Concat(chunks)))
      && (o.Stored? ==> o.image == Concat(chunks) && digest(o.image) == hash && decodes(o.image))
    }

    // Encrypts, appends and accounts, and closes the file when it is complete.
    method Take(data: seq<byte>) returns (o: Outcome)
      requires Valid() && open && |data| <= UPLOAD_CHUNK_SIZE
      modifies this`file, this`fed, this`image, this`currentSize, this`open, this`chunks
      modifies stream`blockCounter, stream`buffer, stream`spent
      ensures Valid() && !o.Refused? && !o.Ignored?
      ensures chunks == old(chunks) + [data] && Settled(o)
      ensures open == o.Running?
    {
      hide Secret.Valid, StreamBytes, Blocks, Cipher.Schedule.Valid, DiskTag, Written, Concat, Spent;
      OneMore(stream.k, chunks, data);
      var encrypted := Through(stream, data);
      file := file + encrypted;
      currentSize := currentSize + |data|;
      chunks := chunks + [data];
      if currentSize > size {
        open := false;
        return TooLong;
      }
      fed := fed + encrypted;
      image := image + data;
      if currentSize != size { return Running; }
      o := Complete();
    }

    // The last chunk arrived: close the file with its tag, then check the digest
    // and, for a clip, its form.
    method Complete() returns (o: Outcome)
      requires Valid() && open && currentSize == size
      modifies this`open, this`file
      ensures Valid() && !open
      ensures o.Stored? || o.HashMismatch? || o.Malformed?
      ensures file == SealedFile(stream.k, mac, chunks)
      ensures o.Stored? ==> o.image == Concat(chunks)
      ensures o.HashMismatch? <==> digest(Concat(chunks)) != hash
      ensures o.Stored? <==> digest(Concat(chunks)) == hash && decodes(Concat(chunks))
    {
      hide Secret.Valid, StreamBytes, Blocks, Cipher.Schedule.Valid, DiskTag, Written, Concat, Spent;
      open := false;
      file := file + mac(fed + Be64(currentSize));
      TagOf(mac, fed);
      if digest(image) != hash { return HashMismatch; }
      if !decodes(image) { return Malformed; }
      o := Stored(image);
    }
  }

  // What one more chunk adds.
  lemma OneMore(k: Secret, chunks: seq<seq<byte>>, data: seq<byte>)
    requires k.Valid()
    ensures Concat(chunks + [data]) == Concat(chunks) + data
    ensures Spent(k, chunks + [data]) == Spent(k, chunks) + Blocks(k, (|data| + 7) / 8)
    ensures Written(k, chunks + [data]) == Written(k, chunks) + StreamBytes(k, Spent(k, chunks), data)
  {
    hide Secret.Valid, StreamBytes, Blocks;
    assert (chunks + [data])[..|chunks|] == chunks;
  }

  lemma TagOf(mac: Mac, c: seq<byte>)
    ensures DiskTag(mac, c, |c|) == mac(c + Be64(|c|))
  {}

  // Reads a sealed file back, verifying it first. The stream is the file's own, freshly made.
  method ReadImageFile(stream: RexStream, mac: Mac, sealed: seq<byte>) returns (image: Option<seq<byte>>)
    requires stream.Valid() && stream.Now() == State(0, [])
    modifies stream`blockCounter, stream`buffer, stream`spent
    ensures image == ReadImage(stream.k, mac, sealed)
  {
    hide Secret.Valid, StreamBytes, Blocks, Cipher.Schedule.Valid, Cut;
    var content := DiskOpen(mac, sealed);
    if content.None? { return None; }
    var pieces := Cut(UPLOAD_CHUNK_SIZE, content.value);
    var bytes := [];
    for i := 0 to |pieces|
      invariant stream.Valid() && stream.buffer == [] && stream.spent == Spent(stream.k, pieces[..i])
      invariant bytes == Written(stream.k, pieces[..i])
    {
      assert pieces[..i + 1][..i] == pieces[..i];
      var chunk := Through(stream, pieces[i]);
      bytes := bytes + chunk;
    }
    assert pieces[..|pieces|] == pieces;
    image := Some(bytes);
  }
}
