/** Incremental counter mode (core/src/stream.rs). `StreamSpec` says what a stream computes and
    which counters it spends; `RexStream` is the buffering code. */
module StreamSpec {
  import opened Bits
  import opened Bytes
  import opened Rows
  import opened Layers
  import opened Cipher

  // What fixes the keystream: the schedule and the nonce.
  datatype Secret = Secret(s: Schedule, nonce: seq<bv64>) {
    predicate Valid() { s.Valid() && |nonce| == s.GridArea() }

    function Size(): nat { s.GridArea() }

    // The keystream of block b, for the u64 counter.
    function Pad(b: nat): (p: seq<bv64>)
      requires Valid()
      ensures |p| == Size()
    {
      Keystream(s, nonce, b % TWO_64)
    }
  }

  lemma SizePositive(k: Secret)
    requires k.Valid()
    ensures k.Size() > 0
  {
    AreaPositive(k.s.w, k.s.h);
  }

  // A run of data combined with the keystream of one counter; a short run uses a truncated block.
  datatype Use = Use(counter: nat, data: seq<bv64>)

  // The blocks that data is cut into, counted from start.
  function Blocked(size: nat, start: nat, data: seq<bv64>): (u: seq<Use>)
    requires size > 0
    ensures forall i :: 0 <= i < |u| ==> |u[i].data| <= size
    decreases |data|
  {
    if |data| == 0 then []
    else if |data| <= size then [Use(start, data)]
    else [Use(start, data[..size])] + Blocked(size, start + 1, data[size..])
  }

  // What combining the blocks produces.
  function Apply(k: Secret, uses: seq<Use>): (out: seq<bv64>)
    requires k.Valid() && forall i :: 0 <= i < |uses| ==> |uses[i].data| <= k.Size()
  {
    if |uses| == 0 then []
    else XorCells(uses[0].data, k.Pad(uses[0].counter)[..|uses[0].data|]) + Apply(k, uses[1..])
  }

  // One-shot counter mode from block start on, truncated to the data.
  function CtrCells(k: Secret, start: nat, data: seq<bv64>): (out: seq<bv64>)
    requires k.Valid()
  {
    SizePositive(k);
    Apply(k, Blocked(k.Size(), start, data))
  }

  // The number of blocks n cells take.
  function BlockCount(size: nat, n: nat): nat
    requires size > 0
  {
    if n == 0 then 0 else if n <= size then 1 else 1 + BlockCount(size, n - size)
  }

  lemma {:induction false} BlockedCount(size: nat, start: nat, data: seq<bv64>)
    requires size > 0
    ensures |Blocked(size, start, data)| == BlockCount(size, |data|)
    ensures forall i :: 0 <= i < |Blocked(size, start, data)| ==> Blocked(size, start, data)[i].counter == start + i
    decreases |data|
  {
    if |data| > size {
      BlockedCount(size, start + 1, data[size..]);
    }
  }

  // Unfolding by whole blocks.
  lemma CtrShort(k: Secret, start: nat, data: seq<bv64>)
    requires k.Valid() && |data| <= k.Size()
    ensures CtrCells(k, start, data) == XorCells(data, k.Pad(start)[..|data|])
  {
    hide XorCells, Secret.Pad, Secret.Valid;
    SizePositive(k);
    if |data| > 0 {
      assert Apply(k, [Use(start, data)]) == XorCells(data, k.Pad(start)[..|data|]) + Apply(k, []);
    } else {
      EmptyXor(data, k.Pad(start)[..0]);
    }
  }

  lemma EmptyXor(x: seq<bv64>, y: seq<bv64>)
    requires |x| == |y| == 0
    ensures XorCells(x, y) == []
  {}

  lemma CtrBlock(k: Secret, start: nat, block: seq<bv64>, rest: seq<bv64>)
    requires k.Valid() && |block| == k.Size()
    ensures CtrCells(k, start, block + rest) == XorCells(block, k.Pad(start)) + CtrCells(k, start + 1, rest)
  {
    hide XorCells, Secret.Pad, Secret.Valid;
    SizePositive(k);
    var size := k.Size();
    var data := block + rest;
    assert k.Pad(start)[..size] == k.Pad(start);
    if |rest| == 0 {
      CtrShort(k, start, block);
      CtrShort(k, start + 1, rest);
      EmptyXor(rest, k.Pad(start + 1)[..0]);
      assert data == block;
    } else {
      assert data[..size] == block && data[size..] == rest;
      assert Blocked(size, start, data) == [Use(start, block)] + Blocked(size, start + 1, rest);
      assert Blocked(size, start, data)[1..] == Blocked(size, start + 1, rest);
    }
  }

  lemma {:induction false} CtrLength(k: Secret, start: nat, data: seq<bv64>)
    requires k.Valid()
    ensures |CtrCells(k, start, data)| == |data|
    decreases |data|
  {
    hide XorCells, Secret.Pad, Secret.Valid, CtrCells;
    SizePositive(k);
    var size := k.Size();
    if |data| <= size {
      CtrShort(k, start, data);
    } else {
      assert data == data[..size] + data[size..];
      CtrBlock(k, start, data[..size], data[size..]);
      CtrLength(k, start + 1, data[size..]);
    }
  }

  // Cell j of the keystream of block b.
  function PadCell(k: Secret, b: nat, j: nat): bv64
    requires k.Valid() && j < k.Size()
  {
    k.Pad(b)[j]
  }

  // Cell i of the keystream from block start on.
  function KeyCell(k: Secret, start: nat, i: nat): bv64
    requires k.Valid()
  {
    SizePositive(k);
    PadCell(k, start + i / k.Size(), i % k.Size())
  }

  lemma KeyCellIs(k: Secret, start: nat, i: nat, q: nat, j: nat)
    requires k.Valid() && j < k.Size() && i == q * k.Size() + j
    ensures KeyCell(k, start, i) == PadCell(k, start + q, j)
  {
    hide Secret.Valid, Secret.Size, PadCell;
    Divided(i, k.Size(), q, j);
  }

  lemma KeyCellNext(k: Secret, start: nat, i: nat)
    requires k.Valid() && i >= k.Size()
    ensures KeyCell(k, start, i) == KeyCell(k, start + 1, i - k.Size())
  {
    hide Secret.Valid, Secret.Size, PadCell;
    SizePositive(k);
    var size, rest := k.Size(), i - k.Size();
    Divided(i, size, rest / size + 1, rest % size);
  }

  // Counter mode, cell by cell: every cell is xored with the cell of the keystream block its place falls in.
  lemma {:induction false} CtrAt(k: Secret, start: nat, data: seq<bv64>, i: nat)
    requires k.Valid() && i < |data|
    ensures |CtrCells(k, start, data)| == |data|
    ensures CtrCells(k, start, data)[i] == data[i] ^ KeyCell(k, start, i)
    decreases |data|
  {
    hide XorCells, Secret.Pad, Secret.Valid, Secret.Size, CtrCells, KeyCell;
    SizePositive(k);
    CtrLength(k, start, data);
    var size := k.Size();
    if i < size { KeyCellIs(k, start, i, 0, i); }
    if |data| <= size {
      CtrShort(k, start, data);
      XorAt(data, k.Pad(start)[..|data|], i);
    } else {
      var a, b := data[..size], data[size..];
      assert data == a + b;
      CtrBlock(k, start, a, b);
      if i < size {
        XorAt(a, k.Pad(start), i);
      } else {
        CtrAt(k, start + 1, b, i - size);
        KeyCellNext(k, start, i);
      }
    }
  }

  lemma XorAt(x: seq<bv64>, y: seq<bv64>, i: nat)
    requires |x| == |y| && i < |x|
    ensures XorCells(x, y)[i] == x[i] ^ y[i]
  {
    hide Xor;
    XorDef(x[i], y[i]);
  }

  // n whole blocks can be cut off the front.
  lemma {:induction false} CtrSplit(k: Secret, start: nat, x: seq<bv64>, y: seq<bv64>, n: nat)
    requires k.Valid() && |x| == Area(k.Size(), n)
    ensures CtrCells(k, start, x + y) == CtrCells(k, start, x) + CtrCells(k, start + n, y)
    decreases n
  {
    hide XorCells, Secret.Pad, Secret.Valid, CtrCells, Secret.Size;
    var size := k.Size();
    if n == 0 {
      assert x + y == y;
      CtrLength(k, start, x);
    } else {
      AreaFront(size, n);
      var a, b := x[..size], x[size..];
      assert x == a + b && x + y == a + (b + y);
      CtrBlock(k, start, a, b);
      CtrBlock(k, start, a, b + y);
      CtrSplit(k, start + 1, b, y, n - 1);
    }
  }

  lemma {:induction false} AreaFront(size: nat, n: nat)
    requires n > 0
    ensures Area(size, n) == size + Area(size, n - 1)
  {
    if n > 1 { AreaFront(size, n - 1); }
  }

  // Only the counter modulo 2^64 matters.
  lemma {:induction false} CtrWraps(k: Secret, start: nat, data: seq<bv64>)
    requires k.Valid()
    ensures CtrCells(k, start % TWO_64, data) == CtrCells(k, start, data)
    decreases |data|
  {
    CtrCongruent(k, start % TWO_64, start, data);
  }

  lemma {:induction false} CtrCongruent(k: Secret, a: nat, b: nat, data: seq<bv64>)
    requires k.Valid() && a % TWO_64 == b % TWO_64
    ensures CtrCells(k, a, data) == CtrCells(k, b, data)
    decreases |data|
  {
    hide XorCells, Secret.Valid, CtrCells, Keystream;
    SizePositive(k);
    var size := k.Size();
    if |data| <= size {
      CtrShort(k, a, data);
      CtrShort(k, b, data);
    } else {
      assert data == data[..size] + data[size..];
      CtrBlock(k, a, data[..size], data[size..]);
      CtrBlock(k, b, data[..size], data[size..]);
      CtrCongruent(k, a + 1, b + 1, data[size..]);
    }
  }

  // Counter mode undoes itself.
  lemma {:induction false} CtrTwice(k: Secret, start: nat, data: seq<bv64>)
    requires k.Valid()
    ensures CtrCells(k, start, CtrCells(k, start, data)) == data
    decreases |data|
  {
    hide XorCells, Secret.Valid, CtrCells, Secret.Pad;
    SizePositive(k);
    var size := k.Size();
    if |data| <= size {
      CtrShort(k, start, data);
      var out := CtrCells(k, start, data);
      CtrShort(k, start, out);
      XorCellsUndone(data, k.Pad(start)[..|data|]);
    } else {
      var a, b := data[..size], data[size..];
      assert data == a + b;
      CtrBlock(k, start, a, b);
      CtrBlock(k, start, XorCells(a, k.Pad(start)), CtrCells(k, start + 1, b));
      XorCellsUndone(a, k.Pad(start));
      CtrTwice(k, start + 1, b);
    }
  }
}

/** A stream as a state machine over whole runs of calls. */
module StreamRuns {
  import opened Bits
  import opened Bytes
  import opened Rows
  import opened Cipher
  import opened StreamSpec

  // spent counts every block so far; the u64 block counter is spent modulo 2^64.
  datatype State = State(spent: nat, buffer: seq<bv64>)

  datatype Call = Update(data: seq<bv64>) | Finalize

  datatype Effect = Effect(next: State, out: seq<bv64>, uses: seq<Use>)

  // The number of blocks a message of n cells takes.
  function Blocks(k: Secret, n: nat): nat
    requires k.Valid()
  {
    SizePositive(k);
    BlockCount(k.Size(), n)
  }

  // How many whole blocks n cells hold.
  function Whole(size: nat, n: nat): nat
    requires size > 0
  {
    if n < size then 0 else 1 + Whole(size, n - size)
  }

  lemma {:induction false} WholeCut(size: nat, n: nat)
    requires size > 0
    ensures Area(size, Whole(size, n)) <= n < Area(size, Whole(size, n)) + size
    decreases n
  {
    if n >= size {
      WholeCut(size, n - size);
      AreaFront(size, Whole(size, n));
    }
  }

  // One call. Only whole blocks are combined until the stream is finalized.
  function Step(k: Secret, st: State, call: Call): Effect
    requires k.Valid()
  {
    SizePositive(k);
    match call
    case Update(data) =>
      var all := st.buffer + data;
      var n := Whole(k.Size(), |all|);
      WholeCut(k.Size(), |all|);
      var cut := Area(k.Size(), n);
      Effect(State(st.spent + n, all[cut..]), CtrCells(k, st.spent, all[..cut]), Blocked(k.Size(), st.spent, all[..cut]))
    case Finalize =>
      if st.buffer == [] then Effect(st, [], [])
      else Effect(State(st.spent + BlockCount(k.Size(), |st.buffer|), []), CtrCells(k, st.spent, st.buffer),
                  Blocked(k.Size(), st.spent, st.buffer))
  }

  function Run(k: Secret, st: State, calls: seq<Call>): Effect
    requires k.Valid()
    decreases |calls|
  {
    if calls == [] then Effect(st, [], [])
    else
      var first := Step(k, st, calls[0]);
      var rest := Run(k, first.next, calls[1..]);
      Effect(rest.next, first.out + rest.out, first.uses + rest.uses)
  }

  function Flatten(chunks: seq<seq<bv64>>): seq<bv64> {
    if chunks == [] then [] else chunks[0] + Flatten(chunks[1..])
  }

  // A message fed chunk by chunk, then finalized.
  function Feed(chunks: seq<seq<bv64>>): seq<Call> {
    if chunks == [] then [Finalize] else [Update(chunks[0])] + Feed(chunks[1..])
  }

  // ----- chunking -----

  lemma {:induction false} FeedResult(k: Secret, st: State, chunks: seq<seq<bv64>>)
    requires k.Valid() && |st.buffer| < k.Size()
    ensures var e := Run(k, st, Feed(chunks));
            var all := st.buffer + Flatten(chunks);
            e.out == CtrCells(k, st.spent, all) && e.next == State(st.spent + Blocks(k, |all|), [])
    decreases |chunks|
  {
    hide CtrCells, Secret.Valid, Secret.Size, Blocked, Step, Run, Blocks;
    if chunks == [] {
      FeedEnd(k, st);
      assert st.buffer + Flatten(chunks) == st.buffer;
    } else {
      var first := Step(k, st, Update(chunks[0]));
      UpdateKeepsTotal(k, st, chunks[0], Flatten(chunks[1..]));
      FeedResult(k, first.next, chunks[1..]);
      assert st.buffer + Flatten(chunks) == st.buffer + chunks[0] + Flatten(chunks[1..]);
      RunHead(k, st, Update(chunks[0]), Feed(chunks[1..]));
    }
  }

  lemma RunHead(k: Secret, st: State, call: Call, rest: seq<Call>)
    requires k.Valid()
    ensures var first := Step(k, st, call);
            var e := Run(k, first.next, rest);
            Run(k, st, [call] + rest) == Effect(e.next, first.out + e.out, first.uses + e.uses)
  {
    hide Step, Secret.Valid;
    assert ([call] + rest)[1..] == rest;
  }

  lemma FeedEnd(k: Secret, st: State)
    requires k.Valid() && |st.buffer| < k.Size()
    ensures var e := Run(k, st, [Finalize]);
            e.out == CtrCells(k, st.spent, st.buffer) && e.next == State(st.spent + Blocks(k, |st.buffer|), [])
  {
    hide CtrCells, Secret.Valid, Secret.Size, Blocked;
    SizePositive(k);
    assert [Finalize][1..] == [];
    CtrLength(k, st.spent, st.buffer);
  }

  // An update puts out whole blocks from the front of everything still to be combined.
  lemma UpdateKeepsTotal(k: Secret, st: State, data: seq<bv64>, rest: seq<bv64>)
    requires k.Valid()
    ensures var e := Step(k, st, Update(data));
            && |e.next.buffer| < k.Size()
            && CtrCells(k, st.spent, st.buffer + data + rest) == e.out + CtrCells(k, e.next.spent, e.next.buffer + rest)
            && st.spent + Blocks(k, |st.buffer + data + rest|) == e.next.spent + Blocks(k, |e.next.buffer + rest|)
  {
    hide CtrCells, Secret.Valid, Secret.Size, Blocked;
    SizePositive(k);
    var all := st.buffer + data;
    var n := Whole(k.Size(), |all|);
    WholeCut(k.Size(), |all|);
    var cut := Area(k.Size(), n);
    assert all + rest == all[..cut] + (all[cut..] + rest);
    CtrSplit(k, st.spent, all[..cut], all[cut..] + rest, n);
    CountSplit(k.Size(), n, |all[cut..] + rest|);
  }

  lemma {:induction false} CountSplit(size: nat, n: nat, rest: nat)
    requires size > 0
    ensures BlockCount(size, Area(size, n) + rest) == n + BlockCount(size, rest)
  {
    if n > 0 {
      AreaFront(size, n);
      CountSplit(size, n - 1, rest);
      assert BlockCount(size, size + rest) == 1 + BlockCount(size, rest);
    }
  }

  // However a message is cut, a fresh stream computes one-shot counter mode over the whole of it.
  lemma ChunkingInvisible(k: Secret, chunks: seq<seq<bv64>>)
    requires k.Valid()
    ensures Run(k, State(0, []), Feed(chunks)).out == CtrCells(k, 0, Flatten(chunks))
  {
    SizePositive(k);
    FeedResult(k, State(0, []), chunks);
    assert [] + Flatten(chunks) == Flatten(chunks);
  }

  // And every cell of it is the message's, xored with its cell of the keystream.
  lemma StreamAt(k: Secret, chunks: seq<seq<bv64>>, i: nat)
    requires k.Valid() && i < |Flatten(chunks)|
    ensures var out := Run(k, State(0, []), Feed(chunks)).out;
            |out| == |Flatten(chunks)| && out[i] == Xor(Flatten(chunks)[i], KeyCell(k, 0, i))
  {
    hide CtrCells, Secret.Valid, Run, Feed, Flatten, KeyCell;
    ChunkingInvisible(k, chunks);
    CtrAt(k, 0, Flatten(chunks), i);
    XorDef(Flatten(chunks)[i], KeyCell(k, 0, i));
  }

  // Between messages the two ends of a stream hold the same state, and feeding one's output to
  // the other, cut in any other way, gives the message back and keeps them in step.
  lemma MirrorRestores(k: Secret, spent: nat, sent: seq<seq<bv64>>, received: seq<seq<bv64>>)
    requires k.Valid()
    requires Flatten(received) == Run(k, State(spent, []), Feed(sent)).out
    ensures Run(k, State(spent, []), Feed(received)).out == Flatten(sent)
    ensures Run(k, State(spent, []), Feed(received)).next == Run(k, State(spent, []), Feed(sent)).next
  {
    hide CtrCells, Secret.Valid, Run, Feed, Flatten, BlockCount;
    SizePositive(k);
    FeedResult(k, State(spent, []), sent);
    FeedResult(k, State(spent, []), received);
    assert [] + Flatten(sent) == Flatten(sent) && [] + Flatten(received) == Flatten(received);
    StreamSpec.CtrTwice(k, spent, Flatten(sent));
    CtrLength(k, spent, Flatten(sent));
  }

  // ----- safety over any run of mixed calls -----

  lemma StepSafe(k: Secret, st: State, call: Call)
    requires k.Valid() && |st.buffer| < k.Size()
    ensures var e := Step(k, st, call);
            && |e.next.buffer| < k.Size()
            && e.next.spent == st.spent + |e.uses|
            && (forall i :: 0 <= i < |e.uses| ==> |e.uses[i].data| <= k.Size() && e.uses[i].counter == st.spent + i)
            && e.out == Apply(k, e.uses)
  {
    hide Apply, Secret.Valid, Secret.Size;
    SizePositive(k);
    match call
    case Update(data) =>
      var all := st.buffer + data;
      var n := Whole(k.Size(), |all|);
      WholeCut(k.Size(), |all|);
      BlockedCount(k.Size(), st.spent, all[..Area(k.Size(), n)]);
      CountSplit(k.Size(), n, 0);
    case Finalize =>
      BlockedCount(k.Size(), st.spent, st.buffer);
      ApplyNothing(k);
  }

  lemma ApplyNothing(k: Secret)
    requires k.Valid()
    ensures Apply(k, []) == []
  {}

  lemma {:induction false} ApplyConcat(k: Secret, a: seq<Use>, b: seq<Use>)
    requires k.Valid()
    requires forall i :: 0 <= i < |a| ==> |a[i].data| <= k.Size()
    requires forall i :: 0 <= i < |b| ==> |b[i].data| <= k.Size()
    ensures Apply(k, a + b) == Apply(k, a) + Apply(k, b)
  {
    hide Secret.Valid, Secret.Size, Secret.Pad, XorCells;
    if a == [] {
      assert a + b == b;
    } else {
      assert (a + b)[1..] == a[1..] + b;
      ApplyConcat(k, a[1..], b);
    }
  }

  // After every run the buffer is shorter than a block, and everything put out was combined with
  // consecutive counters: the i-th block applied since st used counter st.spent + i.
  lemma {:induction false} RunSafe(k: Secret, st: State, calls: seq<Call>)
    requires k.Valid() && |st.buffer| < k.Size()
    ensures var e := Run(k, st, calls);
            && |e.next.buffer| < k.Size()
            && e.next.spent == st.spent + |e.uses|
            && (forall i :: 0 <= i < |e.uses| ==> |e.uses[i].data| <= k.Size() && e.uses[i].counter == st.spent + i)
            && e.out == Apply(k, e.uses)
    decreases |calls|
  {
    hide Apply, Secret.Valid, Secret.Size, Step;
    if calls == [] {
      ApplyNothing(k);
    } else {
      var first := Step(k, st, calls[0]);
      StepSafe(k, st, calls[0]);
      RunSafe(k, first.next, calls[1..]);
      ApplyConcat(k, first.uses, Run(k, first.next, calls[1..]).uses);
    }
  }

  // While at most 2^64 blocks are processed, no u64 counter value is applied to two blocks, so no
  // two blocks of the run share their keystream.
  lemma NoCounterReuse(k: Secret, st: State, calls: seq<Call>, i: nat, j: nat)
    requires k.Valid() && |st.buffer| < k.Size()
    requires i < j < |Run(k, st, calls).uses| <= TWO_64
    ensures var u := Run(k, st, calls).uses;
            u[i].counter % TWO_64 != u[j].counter % TWO_64 && k.Pad(u[i].counter) != k.Pad(u[j].counter)
  {
    hide Run, Keystream, Secret.Size;
    RunSafe(k, st, calls);
    var u := Run(k, st, calls).uses;
    DifferentResidues(u[i].counter, u[j].counter);
    if k.Pad(u[i].counter) == k.Pad(u[j].counter) {
      KeystreamInjective(k.s, k.nonce, u[i].counter % TWO_64, u[j].counter % TWO_64);
    }
  }

  lemma DifferentResidues(a: nat, b: nat)
    requires a < b < a + TWO_64
    ensures a % TWO_64 != b % TWO_64
  {}

  // That bound is exact: a run keeps its keystream blocks apart exactly as long as it processes at most
  // 2^64 of them.
  lemma KeystreamDistinctIff(k: Secret, st: State, calls: seq<Call>)
    requires k.Valid() && |st.buffer| < k.Size()
    ensures var u := Run(k, st, calls).uses;
            |u| <= TWO_64 <==> forall i, j :: 0 <= i < j < |u| ==> k.Pad(u[i].counter) != k.Pad(u[j].counter)
  {
    hide Run, Keystream, Secret.Size;
    RunSafe(k, st, calls);
    var u := Run(k, st, calls).uses;
    if |u| <= TWO_64 {
      forall i, j | 0 <= i < j < |u| ensures k.Pad(u[i].counter) != k.Pad(u[j].counter) {
        NoCounterReuse(k, st, calls, i, j);
      }
    } else {
      SameResidue(u[0].counter);
      assert u[TWO_64].counter == u[0].counter + TWO_64;
    }
  }

  lemma SameResidue(a: nat)
    ensures (a + TWO_64) % TWO_64 == a % TWO_64
  {}
}

/** The buffering code. */
module Streams {
  import opened Bits
  import opened Bytes
  import opened Rows
  import opened Grids
  import opened CtrMode
  import opened StreamSpec
  import opened StreamRuns
  import Cipher

  function Chunks(size: nat, data: seq<bv64>): (c: seq<seq<bv64>>)
    requires size > 0
    ensures forall i :: 0 <= i < |c| ==> |c[i]| == size
    decreases |data|
  {
    if |data| < size then [] else [data[..size]] + Chunks(size, data[size..])
  }

  lemma {:induction false} ChunksOfPrefix(size: nat, done: seq<bv64>, chunk: seq<bv64>, n: nat)
    requires size > 0 && |done| == Area(size, n) && |chunk| == size
    ensures Chunks(size, done + chunk) == Chunks(size, done) + [chunk]
    decreases n
  {
    if n == 0 {
      assert done + chunk == chunk && chunk[..size] == chunk;
      assert Chunks(size, chunk) == [chunk[..size]] + Chunks(size, chunk[size..]);
    } else {
      AreaFront(size, n);
      assert (done + chunk)[..size] == done[..size] && (done + chunk)[size..] == done[size..] + chunk;
      ChunksOfPrefix(size, done[size..], chunk, n - 1);
    }
  }

  function CombinedChunks(k: Secret, start: nat, data: seq<bv64>): seq<seq<bv64>>
    requires k.Valid()
  {
    SizePositive(k);
    Cipher.Ctr(k.s, k.nonce, Chunks(k.Size(), data), start)
  }

  // Grid-wise counter mode over the chunks of whole blocks is counter mode over the cells.
  lemma {:induction false} ChunksCombined(k: Secret, start: nat, data: seq<bv64>, n: nat)
    requires k.Valid() && |data| == Area(k.Size(), n)
    ensures Flatten(CombinedChunks(k, start, data)) == CtrCells(k, start, data)
    decreases n
  {
    hide Secret.Valid, CtrCells, Cipher.Keystream, XorCells;
    SizePositive(k);
    var size := k.Size();
    if n == 0 {
      CtrLength(k, start, data);
    } else {
      AreaFront(size, n);
      var a, b := data[..size], data[size..];
      assert data == a + b;
      ChunksCombined(k, start + 1, b, n - 1);
      CtrBlock(k, start, a, b);
      var whole := CombinedChunks(k, start, data);
      assert whole[0] == XorCells(a, k.Pad(start));
      assert whole[1..] == CombinedChunks(k, start + 1, b);
    }
  }

  lemma {:induction false} FlattenLast(chunks: seq<seq<bv64>>, last: seq<bv64>)
    ensures Flatten(chunks + [last]) == Flatten(chunks) + last
  {
    if chunks == [] {
      assert [last][1..] == [];
    } else {
      assert (chunks + [last])[1..] == chunks[1..] + [last];
      FlattenLast(chunks[1..], last);
    }
  }

  lemma FlattenNothing(chunks: seq<seq<bv64>>)
    requires chunks == []
    ensures Flatten(chunks) == []
  {}

  lemma {:induction false} ChunksOfFlat(size: nat, g: seq<seq<bv64>>)
    requires size > 0 && forall i :: 0 <= i < |g| ==> |g[i]| == size
    ensures |Flatten(g)| == Area(size, |g|) && Chunks(size, Flatten(g)) == g
  {
    if g != [] {
      ChunksOfFlat(size, g[1..]);
      AreaFront(size, |g|);
      assert Flatten(g)[..size] == g[0] && Flatten(g)[size..] == Flatten(g[1..]);
    }
  }

  // Grid-wise counter mode over any grids is counter mode over their cells.
  lemma GridsCombined(k: Secret, start: nat, grids: seq<seq<bv64>>)
    requires k.Valid() && forall i :: 0 <= i < |grids| ==> |grids[i]| == k.s.GridArea()
    ensures Flatten(Cipher.Ctr(k.s, k.nonce, grids, start)) == CtrCells(k, start, Flatten(grids))
  {
    hide Secret.Valid, CtrCells, Cipher.Ctr;
    SizePositive(k);
    ChunksOfFlat(k.Size(), grids);
    ChunksCombined(k, start, Flatten(grids), |grids|);
  }

  // Cells beyond a short block do not reach the truncated output.
  lemma PaddingDropped(x: seq<bv64>, p: seq<bv64>)
    requires |x| <= |p|
    ensures XorCells(FlatCells(x, |p|), p)[..|x|] == XorCells(x, p[..|x|])
  {
    hide Xor;
  }

  // ----- the steps of the update code against one step of the stream -----

  lemma WholeIsQuotient(size: nat, n: nat)
    requires size > 0
    ensures Whole(size, n) == n / size
    ensures Area(size, n / size) == n / size * size <= n < n / size * size + size
  {
    WholeCut(size, n);
    var q := Whole(size, n);
    AreaIsProduct(size, q);
    assert size * q == q * size;
    Divided(n, size, q, n - q * size);
  }

  // With an empty buffer the whole grids come straight from the data.
  lemma FromData(k: Secret, spent: nat, data: seq<bv64>)
    requires k.Valid()
    ensures k.Size() > 0
    ensures var n := |data| / k.Size();
            var cut := n * k.Size();
            && cut <= |data| < cut + k.Size() && cut == Area(k.Size(), n)
            && Step(k, State(spent, []), Call.Update(data)).out == CtrCells(k, spent, data[..cut])
            && Step(k, State(spent, []), Call.Update(data)).next == State(spent + n, data[cut..])
  {
    hide CtrCells, Blocked, Secret.Valid, Secret.Size;
    SizePositive(k);
    WholeIsQuotient(k.Size(), |data|);
    assert [] + data == data;
  }

  lemma NoBlocks(k: Secret, spent: nat, data: seq<bv64>)
    requires k.Valid()
    ensures CtrCells(k, spent, data[..0]) == []
  {
    CtrLength(k, spent, data[..0]);
  }

  lemma NothingBuffered(k: Secret, st: State)
    requires k.Valid() && st.buffer == []
    ensures Step(k, st, Call.Finalize).out == [] && Step(k, st, Call.Finalize).next == st
  {}

  lemma FinalBlock(k: Secret, st: State)
    requires k.Valid() && 0 < |st.buffer| < k.Size()
    ensures Step(k, st, Call.Finalize).out == CtrCells(k, st.spent, st.buffer)
    ensures Step(k, st, Call.Finalize).next == State(st.spent + 1, [])
  {}

  // Data that does not fill the block is kept.
  lemma StillShort(k: Secret, st: State, data: seq<bv64>)
    requires k.Valid() && |st.buffer + data| < k.Size()
    ensures Step(k, st, Call.Update(data)).out == []
    ensures Step(k, st, Call.Update(data)).next == State(st.spent, st.buffer + data)
  {
    hide CtrCells, Secret.Valid, Secret.Size;
    SizePositive(k);
    CtrLength(k, st.spent, (st.buffer + data)[..0]);
  }

  // Data that fills the block leaves an empty buffer and one more block spent.
  lemma FilledFirst(k: Secret, st: State, data: seq<bv64>, block: seq<bv64>, rest: seq<bv64>)
    requires k.Valid() && st.buffer + data == block + rest && |block| == k.Size()
    ensures Step(k, st, Call.Update(data)).out
            == CtrCells(k, st.spent, block) + Step(k, State(st.spent + 1, []), Call.Update(rest)).out
    ensures Step(k, st, Call.Update(data)).next == Step(k, State(st.spent + 1, []), Call.Update(rest)).next
  {
    hide CtrCells, Blocked, Secret.Valid, Secret.Size, Whole, Area, Step;
    SizePositive(k);
    var size, n := k.Size(), Whole(k.Size(), |rest|);
    OneMoreWhole(size, |rest|);
    WholeCut(size, |rest|);
    var cut := Area(size, n);
    var all := block + rest;
    assert all[..size + cut] == block + rest[..cut] && all[size + cut..] == rest[cut..];
    CtrSplit(k, st.spent, block, rest[..cut], 1);
    UpdateIs(k, st, data, all);
    UpdateIs(k, State(st.spent + 1, []), rest, rest);
  }

  // An update, spelled out for everything there is to combine.
  lemma UpdateIs(k: Secret, st: State, data: seq<bv64>, all: seq<bv64>)
    requires k.Valid() && all == st.buffer + data
    ensures k.Size() > 0
    ensures var n := Whole(k.Size(), |all|);
            var cut := Area(k.Size(), n);
            && cut <= |all|
            && Step(k, st, Call.Update(data)).out == CtrCells(k, st.spent, all[..cut])
            && Step(k, st, Call.Update(data)).next == State(st.spent + n, all[cut..])
  {
    hide CtrCells, Blocked, Secret.Valid, Secret.Size;
    SizePositive(k);
    WholeCut(k.Size(), |all|);
  }

  lemma OneMoreWhole(size: nat, n: nat)
    requires size > 0
    ensures Whole(size, size + n) == 1 + Whole(size, n)
    ensures Area(size, 1 + Whole(size, n)) == size + Area(size, Whole(size, n))
    ensures Area(size, 1) == size
  {
    AreaFront(size, 1 + Whole(size, n));
    AreaFront(size, 1);
  }

  lemma NoChunks(size: nat, data: seq<bv64>)
    requires size > 0
    ensures Chunks(size, data[..Area(size, 0)]) == []
  {}

  lemma FlatWhole(chunk: seq<bv64>)
    ensures FlatCells(chunk, |chunk|) == chunk
  {}

  class RexStream {
    const keys: seq<Grid>
    const shifts: seq<seq<nat>>
    const nonce: Grid
    ghost const k: Secret

    var blockCounter: nat      // u64
    var buffer: seq<bv64>
    ghost var spent: nat       // blocks processed since the stream was made

    ghost predicate Valid()
      reads this, nonce.cells, (set g | g in keys :: g.cells)
    {
      && Represents(keys, shifts, nonce, k.s, k.nonce) && k.Valid()
      && |buffer| < k.Size()
      && blockCounter == spent % TWO_64
    }

    ghost function Now(): State
      reads this
    {
      State(spent, buffer)
    }

    constructor (keys: seq<Grid>, shifts: seq<seq<nat>>, nonce: Grid)
      requires ValidKeys(keys) && Represents(keys, shifts, nonce, Abstract(keys, shifts), nonce.cells[..])
      ensures Valid() && Now() == State(0, [])
      ensures this.keys == keys && this.shifts == shifts && this.nonce == nonce
      ensures k == Secret(Abstract(keys, shifts), nonce.cells[..])
    {
      this.keys, this.shifts, this.nonce := keys, shifts, nonce;
      k := Secret(Abstract(keys, shifts), nonce.cells[..]);
      blockCounter, buffer, spent := 0, [], 0;
      SizePositive(Secret(Abstract(keys, shifts), nonce.cells[..]));
    }

    // Shapes whole blocks into grids.
    method Shape(data: seq<bv64>, n: nat) returns (grids: seq<Grid>)
      requires k.Valid() && Represents(keys, shifts, nonce, k.s, k.nonce) && |data| == Area(k.Size(), n)
      ensures |grids| == n && AllSized(grids, k.s)
      ensures forall j :: 0 <= j < n ==> fresh(grids[j].cells)
      ensures forall i, j :: 0 <= i < j < n ==> grids[i].cells != grids[j].cells
      ensures k.Size() > 0 && Cells(grids) == Chunks(k.Size(), data)
    {
      hide Secret.Valid, Cipher.Schedule.Valid, Chunks, FlatCells;
      SizePositive(k);
      var size := Area(nonce.w, nonce.h);
      grids := [];
      NoChunks(size, data);
      for i := 0 to n
        invariant |grids| == i && Area(size, i) <= |data| && AllSized(grids, k.s)
        invariant forall j :: 0 <= j < i ==> fresh(grids[j].cells)
        invariant forall j, j' :: 0 <= j < j' < i ==> grids[j].cells != grids[j'].cells
        invariant Cells(grids) == Chunks(size, data[..Area(size, i)])
      {
        AreaGrows(size, i, n);
        var from := Area(size, i);
        var chunk := data[from..from + size];
        ghost var before := Cells(grids);
        var grid := new Grid.FromFlat(nonce.w, nonce.h, chunk);
        ChunksOfPrefix(size, data[..from], chunk, i);
        assert data[..from + size] == data[..from] + chunk;
        FlatWhole(chunk);
        grids := grids + [grid];
        assert Cells(grids) == before + [chunk];
      }
      assert data[..|data|] == data;
    }

    // The cells of every grid, one after the other.
    method Unshape(grids: seq<Grid>) returns (output: seq<bv64>)
      requires AllSized(grids, k.s)
      ensures output == Flatten(Cells(grids))
    {
      ghost var done := Cells(grids);
      output := [];
      for i := 0 to |grids|
        invariant output == Flatten(done[..i])
      {
        FlattenLast(done[..i], done[i]);
        assert done[..i + 1] == done[..i] + [done[i]];
        output := output + grids[i].cells[..];
      }
      assert done[..|grids|] == done;
    }

    // Runs whole blocks through the cipher from the current counter.
    method Combine(data: seq<bv64>, n: nat) returns (output: seq<bv64>)
      requires k.Valid() && Represents(keys, shifts, nonce, k.s, k.nonce) && blockCounter == spent % TWO_64 && |data| == Area(k.Size(), n)
      ensures output == CtrCells(k, spent, data)
    {
      hide Secret.Valid, CtrCells, Cipher.Ctr, Cipher.Schedule.Valid, Chunks, Flatten;
      var grids := Shape(data, n);
      CtrMode.ApplyCtrWithShifts(grids, nonce, keys, shifts, blockCounter, k.s, k.nonce);
      ChunksCombined(k, blockCounter, data, n);
      CtrWraps(k, spent, data);
      output := Unshape(grids);
    }

    // Tops up the block left over from the previous call, and combines it once it is full.
    method Leftovers(data: seq<bv64>) returns (rest: seq<bv64>, output: seq<bv64>)
      requires Valid() && buffer != []
      modifies this`blockCounter, this`buffer, this`spent
      ensures Valid() && (buffer == [] || rest == [])
      ensures Step(k, old(Now()), Call.Update(data)).out == output + Step(k, Now(), Call.Update(rest)).out
      ensures Step(k, old(Now()), Call.Update(data)).next == Step(k, Now(), Call.Update(rest)).next
    {
      hide Secret.Valid, CtrCells, Cipher.Schedule.Valid, Step;
      SizePositive(k);
      ghost var start := Now();
      var area := Area(nonce.w, nonce.h);
      var needed := area - |buffer|;
      var take := if needed < |data| then needed else |data|;
      buffer := buffer + data[..take];
      rest := data[take..];
      output := [];
      assert start.buffer + data == buffer + rest;
      if |buffer| == area {
        FilledFirst(k, start, data, buffer, rest);
        assert |buffer| == Area(area, 1);
        output := Advance(buffer, 1);
        buffer := [];
      } else {
        StillShort(k, start, data);
        StillShort(k, Now(), rest);
      }
    }

    // Combines the whole grids at the front of the data.
    method WholeGrids(data: seq<bv64>) returns (rest: seq<bv64>, output: seq<bv64>)
      requires Valid() && buffer == []
      modifies this`blockCounter, this`spent
      ensures Valid() && |rest| < k.Size()
      ensures Step(k, old(Now()), Call.Update(data)).out == output
      ensures Step(k, old(Now()), Call.Update(data)).next == State(spent, rest)
    {
      hide Secret.Valid, CtrCells, Cipher.Schedule.Valid, Step;
      SizePositive(k);
      FromData(k, spent, data);
      var area := Area(nonce.w, nonce.h);
      var count := |data| / area;
      if count > 0 {
        var size := count * area;
        output := Advance(data[..size], count);
        rest := data[size..];
      } else {
        NoBlocks(k, spent, data);
        output, rest := [], data;
      }
    }

    // Combines complete grids with the keystream and buffers the rest.
    method Update(input: seq<bv64>) returns (output: seq<bv64>)
      requires Valid()
      modifies this`blockCounter, this`buffer, this`spent
      ensures Valid()
      ensures Step(k, old(Now()), Call.Update(input)).out == output
      ensures Step(k, old(Now()), Call.Update(input)).next == Now()
    {
      hide Secret.Valid, CtrCells, Cipher.Schedule.Valid, Step;
      var data := input;
      output := [];
      if buffer != [] {
        data, output := Leftovers(data);
      }
      if buffer == [] {
        var whole;
        data, whole := WholeGrids(data);
        output := output + whole;
      } else {
        StillShort(k, Now(), data);
      }
      buffer := buffer + data;
    }

    // Whole blocks through the cipher, advancing the counter.
    method Advance(data: seq<bv64>, n: nat) returns (output: seq<bv64>)
      requires k.Valid() && Represents(keys, shifts, nonce, k.s, k.nonce) && blockCounter == spent % TWO_64
      requires |data| == Area(k.Size(), n)
      modifies this`blockCounter, this`spent
      ensures output == CtrCells(k, old(spent), data)
      ensures spent == old(spent) + n && blockCounter == spent % TWO_64
    {
      output := Combine(data, n);
      Spend(n);
    }

    method Spend(n: nat)
      requires blockCounter == spent % TWO_64
      modifies this`blockCounter, this`spent
      ensures spent == old(spent) + n && blockCounter == spent % TWO_64
    {
      blockCounter := (blockCounter + n) % TWO_64;
      spent := spent + n;
    }

    // Combines what is buffered with a truncated block.
    method Finalize() returns (output: seq<bv64>)
      requires Valid()
      modifies this`blockCounter, this`buffer, this`spent
      ensures Valid()
      ensures Step(k, old(Now()), Call.Finalize).out == output
      ensures Step(k, old(Now()), Call.Finalize).next == Now()
    {
      hide Secret.Valid, CtrCells, Cipher.Schedule.Valid, Cipher.Keystream, XorCells, Step;
      SizePositive(k);
      if buffer == [] {
        NothingBuffered(k, Now());
        return [];
      }
      var grid := new Grid.FromFlat(nonce.w, nonce.h, buffer);
      CtrMode.ApplyCtrWithShifts([grid], nonce, keys, shifts, blockCounter, k.s, k.nonce);
      FinalBlock(k, Now());
      CtrShort(k, spent, buffer);
      PaddingDropped(buffer, k.Pad(spent));
      assert Cells([grid])[0] == grid.cells[..];
      assert (blockCounter + 0) % TWO_64 == spent % TWO_64;
      output := grid.cells[..][..|buffer|];
      Spend(1);
      buffer := [];
    }
  }
}
