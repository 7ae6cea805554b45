/** The chunk sizes of a picture that can be read back, in closed form: sums and remainders an uploader
    can check, instead of two layouts compared byte by byte. */
module DiskCuts {
  import opened Bytes
  import opened Rows
  import opened StreamSpec
  import opened PacketSpec
  import opened DiskSpec
  import opened DiskLayout

  function Sum(sizes: seq<nat>): nat {
    if sizes == [] then 0 else sizes[0] + Sum(sizes[1..])
  }

  // Where chunk i starts in the picture.
  function StartOf(sizes: seq<nat>, i: nat): nat
    requires i <= |sizes|
  {
    Sum(sizes[..i])
  }

  lemma {:induction false} SumSplit(a: seq<nat>, b: seq<nat>)
    ensures Sum(a + b) == Sum(a) + Sum(b)
  {
    if a == [] {
      assert a + b == b;
    } else {
      assert (a + b)[1..] == a[1..] + b;
      SumSplit(a[1..], b);
    }
  }

  lemma StartStep(sizes: seq<nat>, i: nat)
    requires i < |sizes|
    ensures StartOf(sizes, i + 1) == StartOf(sizes, i) + sizes[i]
  {
    assert sizes[..i + 1] == sizes[..i] + [sizes[i]];
    SumSplit(sizes[..i], [sizes[i]]);
    assert [sizes[i]][1..] == [];
  }

  // Byte p of the picture lies in chunk i.
  predicate InChunk(sizes: seq<nat>, i: nat, p: nat) {
    i < |sizes| && StartOf(sizes, i) <= p < StartOf(sizes, i) + sizes[i]
  }

  // Every chunk that holds anything starts a whole number of blocks past the reader's last cut.
  predicate StartsMatch(g: nat, sizes: seq<nat>)
    requires g > 0
  {
    forall i :: 0 <= i < |sizes| && sizes[i] > 0 ==> StartOf(sizes, i) % UPLOAD_CHUNK_SIZE % g == 0
  }

  // Every cut of the reader lies a whole number of blocks into the chunk it falls in.
  ghost predicate CutsMatch(g: nat, sizes: seq<nat>)
    requires g > 0
  {
    forall i: nat, p: nat :: InChunk(sizes, i, p) && p % UPLOAD_CHUNK_SIZE == 0 ==> (p - StartOf(sizes, i)) % g == 0
  }

  // ----- positions in closed form -----

  lemma {:induction false} LayoutSum(g: nat, sizes: seq<nat>)
    requires g > 0
    ensures |Layout(g, sizes)| == Sum(sizes)
  {
    if sizes != [] {
      var n := |sizes| - 1;
      LayoutSum(g, sizes[..n]);
      StartStep(sizes, n);
      assert sizes[..n + 1] == sizes;
    }
  }

  lemma {:induction false} PositionInChunk(g: nat, sizes: seq<nat>, i: nat, p: nat)
    requires g > 0 && InChunk(sizes, i, p)
    ensures p < |Layout(g, sizes)| && Layout(g, sizes)[p].at == (p - StartOf(sizes, i)) % g
    decreases |sizes|
  {
    hide SpotAt, BlocksOf, Sum;
    var n := |sizes| - 1;
    var init := sizes[..n];
    LayoutSum(g, init);
    if i < n {
      assert init[..i] == sizes[..i];
      PositionInChunk(g, init, i, p);
    } else {
      SpotIsRemainder(g, p - StartOf(sizes, n));
    }
  }

  lemma {:induction false} Locate(sizes: seq<nat>, p: nat) returns (i: nat)
    requires p < Sum(sizes)
    ensures InChunk(sizes, i, p)
    decreases |sizes|
  {
    var n := |sizes| - 1;
    StartStep(sizes, n);
    assert sizes[..n + 1] == sizes;
    if p >= StartOf(sizes, n) {
      i := n;
    } else {
      i := Locate(sizes[..n], p);
      assert sizes[..n][..i] == sizes[..i];
    }
  }

  // The reader's chunks start at the multiples of the full size.
  lemma {:induction false} ReaderChunk(n: nat, p: nat)
    requires p < n
    ensures var i := p / UPLOAD_CHUNK_SIZE;
            InChunk(ReadSizes(n), i, p) && StartOf(ReadSizes(n), i) == i * UPLOAD_CHUNK_SIZE
  {
    var u, sizes := UPLOAD_CHUNK_SIZE, ReadSizes(n);
    if p < u {
      assert sizes[..0] == [];
    } else {
      var j := (p - u) / u;
      ReaderChunk(n - u, p - u);
      assert p / u == j + 1;
      assert sizes[..j + 1] == [u] + sizes[1..][..j];
      SumSplit([u], sizes[1..][..j]);
      assert [u][1..] == [];
    }
  }

  lemma ReaderPosition(g: nat, n: nat, p: nat)
    requires g > 0 && p < n
    ensures p < |Layout(g, ReadSizes(n))| && Layout(g, ReadSizes(n))[p].at == p % UPLOAD_CHUNK_SIZE % g
  {
    ReaderChunk(n, p);
    PositionInChunk(g, ReadSizes(n), p / UPLOAD_CHUNK_SIZE, p);
  }

  lemma {:induction false} ReadSum(n: nat)
    ensures Sum(ReadSizes(n)) == n
  {
    if n > UPLOAD_CHUNK_SIZE { ReadSum(n - UPLOAD_CHUNK_SIZE); }
  }

  // Whole blocks do not matter to a position.
  lemma WholeBlocks(x: nat, y: nat, g: nat)
    requires g > 0 && y % g == 0
    ensures (x + y) % g == x % g
  {
    var a, b, r := x / g, y / g, x % g;
    assert x + y == (a + b) * g + r;
    Divided(x + y, g, a + b, r);
  }

  // ----- the closed form -----

  // The writer and the reader take byte p from the same position of a block.
  predicate Agree(g: nat, sizes: seq<nat>, p: nat)
    requires g > 0 && p < Sum(sizes)
  {
    LayoutSum(g, sizes);
    LayoutSum(g, ReadSizes(Sum(sizes)));
    ReadSum(Sum(sizes));
    Layout(g, sizes)[p].at == Layout(g, ReadSizes(Sum(sizes)))[p].at
  }

  // Positions decide: the blocks follow from them.
  lemma MirrorsIffAgree(g: nat, sizes: seq<nat>)
    requires g > 0
    ensures Mirrors(g, sizes, Sum(sizes)) <==> forall p :: 0 <= p < Sum(sizes) ==> Agree(g, sizes, p)
  {
    hide Layout;
    LayoutSum(g, sizes);
    LayoutSum(g, ReadSizes(Sum(sizes)));
    ReadSum(Sum(sizes));
    if !Mirrors(g, sizes, Sum(sizes)) {
      var p := Differ(g, sizes, ReadSizes(Sum(sizes)));
      assert !Agree(g, sizes, p);
    }
  }

  lemma AgreeIff(g: nat, sizes: seq<nat>, i: nat, p: nat)
    requires g > 0 && InChunk(sizes, i, p) && p < Sum(sizes)
    ensures Agree(g, sizes, p) <==> (p - StartOf(sizes, i)) % g == p % UPLOAD_CHUNK_SIZE % g
  {
    hide Layout;
    PositionInChunk(g, sizes, i, p);
    ReaderPosition(g, Sum(sizes), p);
  }

  lemma InChunkBelow(sizes: seq<nat>, i: nat, p: nat)
    requires InChunk(sizes, i, p)
    ensures p < Sum(sizes)
  {
    StartStep(sizes, i);
    SumSplit(sizes[..i + 1], sizes[i + 1..]);
    assert sizes[..i + 1] + sizes[i + 1..] == sizes;
  }

  lemma SamePosition(g: nat, sizes: seq<nat>, i: nat, p: nat)
    requires g > 0 && StartsMatch(g, sizes) && CutsMatch(g, sizes) && InChunk(sizes, i, p)
    ensures (p - StartOf(sizes, i)) % g == p % UPLOAD_CHUNK_SIZE % g
  {
    var u, start := UPLOAD_CHUNK_SIZE, StartOf(sizes, i);
    var cut := p - p % u;
    assert cut % u == 0;
    if cut >= start {
      assert InChunk(sizes, i, cut);
      WholeBlocks(p - cut, cut - start, g);
    } else {
      assert start % u == start - cut;
      WholeBlocks(p - start, start - cut, g);
    }
  }

  // A picture's chunk sizes mirror the reader's exactly when every chunk starts, and every cut of the
  // reader falls, a whole number of blocks past the other's last boundary. A chunk may stop short of a
  // whole grid only where the reader cuts as well, or where the picture ends.
  lemma MirrorsIff(g: nat, sizes: seq<nat>)
    requires g > 0
    ensures Mirrors(g, sizes, Sum(sizes)) <==> StartsMatch(g, sizes) && CutsMatch(g, sizes)
  {
    hide Mirrors, Agree, StartsMatch, CutsMatch, InChunk;
    MirrorsIffAgree(g, sizes);
    if StartsMatch(g, sizes) && CutsMatch(g, sizes) {
      forall p | 0 <= p < Sum(sizes) ensures Agree(g, sizes, p) {
        var i := Locate(sizes, p);
        AgreeIff(g, sizes, i, p);
        SamePosition(g, sizes, i, p);
      }
    }
    if forall p :: 0 <= p < Sum(sizes) ==> Agree(g, sizes, p) {
      AgreeingStarts(g, sizes);
      AgreeingCuts(g, sizes);
    }
  }

  lemma AgreeingStarts(g: nat, sizes: seq<nat>)
    requires g > 0 && forall p :: 0 <= p < Sum(sizes) ==> Agree(g, sizes, p)
    ensures StartsMatch(g, sizes)
  {
    hide Agree, StartOf, Sum;
    forall i | 0 <= i < |sizes| && sizes[i] > 0 ensures StartOf(sizes, i) % UPLOAD_CHUNK_SIZE % g == 0 {
      AgreeingStart(g, sizes, i, StartOf(sizes, i));
    }
  }

  lemma AgreeingStart(g: nat, sizes: seq<nat>, i: nat, p: nat)
    requires g > 0 && forall p :: 0 <= p < Sum(sizes) ==> Agree(g, sizes, p)
    requires InChunk(sizes, i, p) && p == StartOf(sizes, i)
    ensures p % UPLOAD_CHUNK_SIZE % g == 0
  {
    hide Agree, StartOf, Sum;
    InChunkBelow(sizes, i, p);
    AgreeIff(g, sizes, i, p);
    Divided(0, g, 0, 0);
  }

  lemma AgreeingCuts(g: nat, sizes: seq<nat>)
    requires g > 0 && forall p :: 0 <= p < Sum(sizes) ==> Agree(g, sizes, p)
    ensures CutsMatch(g, sizes)
  {
    hide Agree;
    forall i: nat, p: nat | InChunk(sizes, i, p) && p % UPLOAD_CHUNK_SIZE == 0 ensures (p - StartOf(sizes, i)) % g == 0 {
      InChunkBelow(sizes, i, p);
      AgreeIff(g, sizes, i, p);
    }
  }

  // Where a full chunk is no whole number of blocks, the reader's cuts have to be chunk starts.
  lemma CutsAreStarts(g: nat, sizes: seq<nat>)
    requires g > 0 && UPLOAD_CHUNK_SIZE % g != 0
    ensures Mirrors(g, sizes, Sum(sizes)) <==>
            (StartsMatch(g, sizes)
             && forall i: nat, p: nat :: InChunk(sizes, i, p) && p % UPLOAD_CHUNK_SIZE == 0 ==> p == StartOf(sizes, i))
  {
    hide Mirrors;
    MirrorsIff(g, sizes);
    if StartsMatch(g, sizes) && CutsMatch(g, sizes) {
      forall i: nat, p: nat | InChunk(sizes, i, p) && p % UPLOAD_CHUNK_SIZE == 0 ensures p == StartOf(sizes, i) {
        CutIsStart(g, sizes, i, p);
      }
    }
  }

  lemma CutIsStart(g: nat, sizes: seq<nat>, i: nat, p: nat)
    requires g > 0 && UPLOAD_CHUNK_SIZE % g != 0 && StartsMatch(g, sizes) && CutsMatch(g, sizes)
    requires InChunk(sizes, i, p) && p % UPLOAD_CHUNK_SIZE == 0
    ensures p == StartOf(sizes, i)
  {
    var u, start := UPLOAD_CHUNK_SIZE, StartOf(sizes, i);
    if p > start {
      var next := start - start % u + u;
      assert next <= p && next % u == 0;
      assert InChunk(sizes, i, next);
      WholeBlocks(start % u, next - start, g);
    }
  }

  // So a picture reads back under any given secret and all that share everything but its last key exactly
  // when its chunk sizes pass both checks.
  lemma ReadsBackExactly(k: Secret, mac: Mac, chunks: seq<seq<byte>>)
    requires k.Valid()
    ensures k.Size() > 0
    ensures StartsMatch(8 * k.Size(), Sizes(chunks)) && CutsMatch(8 * k.Size(), Sizes(chunks))
            <==> forall q :: SameButLast(k, q) ==> ReadsBack(q, mac, chunks)
  {
    hide Secret.Valid, Secret.Size, SameButLast, ReadsBack, Mirrors, StartsMatch, CutsMatch, Sizes, Concat;
    SizePositive(k);
    var g := 8 * k.Size();
    LayoutLength(g, chunks);
    LayoutSum(g, Sizes(chunks));
    MirrorsIff(g, Sizes(chunks));
    ReadsBackNearIff(k, mac, chunks);
  }
}
