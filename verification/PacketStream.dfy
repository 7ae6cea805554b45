/** The authenticated packet stream (chat/src/crypto/mod.rs): encrypt-then-MAC over a stream, with
    each tag covering the packet's number. The MAC is any function from byte strings to tags. */
module PacketSpec {
  import opened Wrappers
  import opened Bits
  import opened Bytes
  import opened StreamSpec
  import opened StreamRuns

  const TAG_SIZE: nat := 32

  type Tag = t: seq<byte> | |t| == 32 witness
    [0, 0, 0, 0, 0, 0, 0, 0, 0, 0, 0, 0, 0, 0, 0, 0, 0, 0, 0, 0, 0, 0, 0, 0, 0, 0, 0, 0, 0, 0, 0, 0]

  type Mac = seq<byte> -> Tag

  // u64::to_be_bytes
  function Be64(n: nat): (b: seq<byte>)
    ensures |b| == 8
  {
    BeBytes(n % TWO_64, 8)
  }

  lemma Be64Injective(a: nat, b: nat)
    requires Be64(a) == Be64(b)
    ensures a % TWO_64 == b % TWO_64
  {
    hide BeBytes, BeNat, Power;
    Power256();
    NatOfBytes(a % TWO_64, 8);
    NatOfBytes(b % TWO_64, 8);
  }

  // counter || length || ciphertext
  function MacInput(counter: nat, ciphertext: seq<byte>): seq<byte> {
    Be64(counter) + Be64(|ciphertext|) + ciphertext
  }

  lemma MacInputInjective(a: nat, x: seq<byte>, b: nat, y: seq<byte>)
    requires MacInput(a, x) == MacInput(b, y)
    ensures a % TWO_64 == b % TWO_64 && x == y
  {
    hide Be64;
    assert MacInput(a, x)[..8] == Be64(a) && MacInput(b, y)[..8] == Be64(b);
    assert MacInput(a, x)[16..] == x && MacInput(b, y)[16..] == y;
    Be64Injective(a, b);
  }

  // Eight bytes that spell the counter, eight that spell the length, and the ciphertext.
  lemma MacInputSpells(counter: nat, ciphertext: seq<byte>)
    ensures var m := MacInput(counter, ciphertext);
            && |m| == 16 + |ciphertext|
            && BeNat(m[..8]) == counter % TWO_64
            && BeNat(m[8..16]) == |ciphertext| % TWO_64
            && m[16..] == ciphertext
  {
    hide BeBytes, BeNat, Power;
    var m := MacInput(counter, ciphertext);
    assert m[..8] == Be64(counter) && m[8..16] == Be64(|ciphertext|);
    Be64Spells(counter);
    Be64Spells(|ciphertext|);
  }

  lemma Be64Spells(n: nat)
    ensures BeNat(Be64(n)) == n % TWO_64
  {
    hide BeBytes, BeNat, Power;
    Power256();
    NatOfBytes(n % TWO_64, 8);
  }

  // ----- counter mode on bytes -----

  // A byte string through the stream from block spent on: packed, combined, unpacked, truncated.
  function StreamBytes(k: Secret, spent: nat, b: seq<byte>): (c: seq<byte>)
    requires k.Valid()
    ensures |c| == |b|
  {
    CtrLength(k, spent, BytesToCells(b));
    CellsToBytes(CtrCells(k, spent, BytesToCells(b)))[..|b|]
  }

  // The keystream itself is what counter mode makes of zeros.
  lemma {:induction false} CtrIsXor(k: Secret, start: nat, x: seq<bv64>)
    requires k.Valid()
    ensures |CtrCells(k, start, Filled<bv64>(|x|, 0))| == |x|
    ensures CtrCells(k, start, x) == XorCells(x, CtrCells(k, start, Filled<bv64>(|x|, 0)))
    decreases |x|
  {
    hide Secret.Valid, Secret.Pad, CtrCells, XorCells;
    SizePositive(k);
    var size := k.Size();
    CtrLength(k, start, Filled<bv64>(|x|, 0));
    if |x| <= size {
      CtrShort(k, start, x);
      CtrShort(k, start, Filled<bv64>(|x|, 0));
      XorWithZeros(k.Pad(start)[..|x|]);
    } else {
      var a, b := x[..size], x[size..];
      assert x == a + b;
      assert Filled<bv64>(|x|, 0) == Filled<bv64>(size, 0) + Filled<bv64>(|b|, 0);
      CtrBlock(k, start, a, b);
      CtrBlock(k, start, Filled<bv64>(size, 0), Filled<bv64>(|b|, 0));
      XorWithZeros(k.Pad(start));
      CtrIsXor(k, start + 1, b);
      XorParts(a, b, k.Pad(start), CtrCells(k, start + 1, Filled<bv64>(|b|, 0)));
    }
  }

  lemma XorWithZeros(p: seq<bv64>)
    ensures XorCells(Filled<bv64>(|p|, 0), p) == p
  {
    hide Xor;
    forall i | 0 <= i < |p| ensures XorCells(Filled<bv64>(|p|, 0), p)[i] == p[i] {
      XorZero(p[i]);
    }
  }

  lemma XorParts(a: seq<bv64>, b: seq<bv64>, p: seq<bv64>, q: seq<bv64>)
    requires |a| == |p| && |b| == |q|
    ensures XorCells(a + b, p + q) == XorCells(a, p) + XorCells(b, q)
  {
    hide Xor;
  }

  // The padding of the last cell never shows, so the byte stream undoes itself.
  lemma StreamBytesTwice(k: Secret, spent: nat, b: seq<byte>)
    requires k.Valid()
    ensures StreamBytes(k, spent, StreamBytes(k, spent, b)) == b
  {
    hide Secret.Valid, CtrCells, XorCells, BytesToCells, CellsToBytes, XorBytes;
    var n := |BytesToCells(b)|;
    var pad := CtrCells(k, spent, Filled<bv64>(n, 0));
    AsXor(k, spent, b);
    AsXor(k, spent, StreamBytes(k, spent, b));
    XorBytesTwice(b, CellsToBytes(pad));
  }

  // Every byte is xored with its byte of the keystream.
  lemma StreamByteAt(k: Secret, spent: nat, b: seq<byte>, q: nat)
    requires k.Valid() && q < |b|
    ensures StreamBytes(k, spent, b)[q] == Xor8(b[q], ByteAt(KeyCell(k, spent, q / 8), q % 8))
  {
    hide Secret.Valid, CtrCells, BytesToCells, CellsToBytes, ByteAt, KeyCell, Xor, Xor8;
    var cells := BytesToCells(b);
    CtrAt(k, spent, cells, q / 8);
    XorDef(cells[q / 8], KeyCell(k, spent, q / 8));
    ByteXor(cells[q / 8], KeyCell(k, spent, q / 8), q % 8);
    CellsOfBytes(b, q);
    ByteOfCells(CtrCells(k, spent, cells), q);
    ByteOfCells(cells, q);
  }

  lemma ByteOfCells(c: seq<bv64>, q: nat)
    requires q < 8 * |c|
    ensures CellsToBytes(c)[q] == ByteAt(c[q / 8], q % 8)
  {}

  lemma AsXor(k: Secret, spent: nat, b: seq<byte>)
    requires k.Valid()
    ensures |CtrCells(k, spent, Filled<bv64>((|b| + 7) / 8, 0))| == (|b| + 7) / 8
    ensures StreamBytes(k, spent, b) == XorBytes(b, CellsToBytes(CtrCells(k, spent, Filled<bv64>((|b| + 7) / 8, 0))))
  {
    hide Secret.Valid, CtrCells, XorCells, XorBytes, CellsToBytes;
    CtrIsXor(k, spent, BytesToCells(b));
    XorPacked(b, CtrCells(k, spent, Filled<bv64>(|BytesToCells(b)|, 0)));
  }

  // ----- packets -----

  // Blocks spent by the stream and packets processed; between packets the stream buffer is empty.
  datatype PacketState = PacketState(spent: nat, packets: nat)

  datatype Opened = Rejected | Accepted(plaintext: seq<byte>)

  function Advance(k: Secret, st: PacketState, length: nat): PacketState
    requires k.Valid()
  {
    PacketState(st.spent + Blocks(k, (length + 7) / 8), st.packets + 1)
  }

  function Ciphertext(k: Secret, st: PacketState, plaintext: seq<byte>): seq<byte>
    requires k.Valid()
  {
    StreamBytes(k, st.spent, plaintext)
  }

  // [tag][ciphertext]
  function Sealed(k: Secret, mac: Mac, st: PacketState, plaintext: seq<byte>): seq<byte>
    requires k.Valid()
  {
    var c := Ciphertext(k, st, plaintext);
    mac(MacInput(st.packets, c)) + c
  }

  function Open(k: Secret, mac: Mac, st: PacketState, data: seq<byte>): Opened
    requires k.Valid()
  {
    if |data| < TAG_SIZE then Rejected
    else if mac(MacInput(st.packets, data[TAG_SIZE..])) != data[..TAG_SIZE] then Rejected
    else Accepted(StreamBytes(k, st.spent, data[TAG_SIZE..]))
  }

  // A rejected packet leaves the receiver where it was.
  function AfterOpen(k: Secret, mac: Mac, st: PacketState, data: seq<byte>): PacketState
    requires k.Valid()
  {
    if Open(k, mac, st, data).Rejected? then st else Advance(k, st, |data| - TAG_SIZE)
  }

  // ----- whole runs -----

  // The sender's state before packet i.
  function Before(k: Secret, plaintexts: seq<seq<byte>>, i: nat): PacketState
    requires k.Valid() && i <= |plaintexts|
  {
    if i == 0 then PacketState(0, 0) else Advance(k, Before(k, plaintexts, i - 1), |plaintexts[i - 1]|)
  }

  function Frames(k: Secret, mac: Mac, plaintexts: seq<seq<byte>>): (f: seq<seq<byte>>)
    requires k.Valid()
    ensures |f| == |plaintexts|
  {
    seq(|plaintexts|, i requires 0 <= i < |plaintexts| => Sealed(k, mac, Before(k, plaintexts, i), plaintexts[i]))
  }

  datatype Received = Received(state: PacketState, plaintexts: seq<seq<byte>>)

  // What a receiver makes of a sequence of deliveries.
  function Receive(k: Secret, mac: Mac, st: PacketState, deliveries: seq<seq<byte>>): Received
    requires k.Valid()
    decreases |deliveries|
  {
    if deliveries == [] then Received(st, [])
    else
      var rest := Receive(k, mac, AfterOpen(k, mac, st, deliveries[0]), deliveries[1..]);
      match Open(k, mac, st, deliveries[0])
      case Rejected => rest
      case Accepted(p) => Received(rest.state, [p] + rest.plaintexts)
  }

  lemma {:induction false} PacketsBefore(k: Secret, plaintexts: seq<seq<byte>>, i: nat)
    requires k.Valid() && i <= |plaintexts|
    ensures Before(k, plaintexts, i).packets == i
  {
    if i > 0 { PacketsBefore(k, plaintexts, i - 1); }
  }

  // Opening the packet that was sealed at the same state gives the plaintext and the next state.
  lemma OpenSealed(k: Secret, mac: Mac, st: PacketState, plaintext: seq<byte>)
    requires k.Valid()
    ensures Open(k, mac, st, Sealed(k, mac, st, plaintext)) == Accepted(plaintext)
    ensures AfterOpen(k, mac, st, Sealed(k, mac, st, plaintext)) == Advance(k, st, |plaintext|)
  {
    hide Secret.Valid, StreamBytes, MacInput;
    var c := Ciphertext(k, st, plaintext);
    var data := Sealed(k, mac, st, plaintext);
    assert data[TAG_SIZE..] == c && data[..TAG_SIZE] == mac(MacInput(st.packets, c));
    StreamBytesTwice(k, st.spent, plaintext);
  }

  // A frame is 32 bytes of tag over counter, length and ciphertext, and the ciphertext, as long as the
  // plaintext.
  lemma SealedIs(k: Secret, mac: Mac, st: PacketState, plaintext: seq<byte>)
    requires k.Valid()
    ensures var f := Sealed(k, mac, st, plaintext);
            && |f| == 32 + |plaintext|
            && f[..32] == mac(MacInput(st.packets, f[32..]))
            && f[32..] == StreamBytes(k, st.spent, plaintext)
  {
    hide Secret.Valid, StreamBytes, MacInput;
  }

  // A packet is accepted exactly when it is long enough and its tag is the one over the rest at the
  // current counter.
  lemma OpenIff(k: Secret, mac: Mac, st: PacketState, data: seq<byte>)
    requires k.Valid()
    ensures Open(k, mac, st, data).Accepted? <==> |data| >= 32 && data[..32] == mac(MacInput(st.packets, data[32..]))
    ensures Open(k, mac, st, data).Accepted? ==> Open(k, mac, st, data).plaintext == StreamBytes(k, st.spent, data[32..])
  {
    hide Secret.Valid, StreamBytes, MacInput;
  }

  // In-order delivery accepts everything and leaves both ends in the same state.
  lemma {:induction false} InOrder(k: Secret, mac: Mac, plaintexts: seq<seq<byte>>, i: nat)
    requires k.Valid() && i <= |plaintexts|
    ensures Receive(k, mac, Before(k, plaintexts, i), Frames(k, mac, plaintexts)[i..])
            == Received(Before(k, plaintexts, |plaintexts|), plaintexts[i..])
    decreases |plaintexts| - i
  {
    hide Secret.Valid, Open, AfterOpen, Sealed, Advance;
    if i < |plaintexts| {
      var rest := Frames(k, mac, plaintexts)[i..];
      assert rest[1..] == Frames(k, mac, plaintexts)[i + 1..];
      OpenSealed(k, mac, Before(k, plaintexts, i), plaintexts[i]);
      InOrder(k, mac, plaintexts, i + 1);
      assert plaintexts[i..] == [plaintexts[i]] + plaintexts[i + 1..];
    }
  }

  // No delivered packet carries a valid tag for an input that the sender never authenticated.
  ghost predicate NoForgery(k: Secret, mac: Mac, plaintexts: seq<seq<byte>>, deliveries: seq<seq<byte>>)
    requires k.Valid()
  {
    forall d, c: nat :: d in deliveries && c <= |plaintexts| && Verifies(mac, c, d) ==> Authenticated(k, plaintexts, c, d)
  }

  predicate Verifies(mac: Mac, counter: nat, data: seq<byte>) {
    |data| >= TAG_SIZE && mac(MacInput(counter, data[TAG_SIZE..])) == data[..TAG_SIZE]
  }

  ghost predicate Authenticated(k: Secret, plaintexts: seq<seq<byte>>, counter: nat, data: seq<byte>)
    requires k.Valid()
  {
    |data| >= TAG_SIZE
    && exists i :: 0 <= i < |plaintexts| && MacInput(counter, data[TAG_SIZE..]) == SealedInput(k, plaintexts, i)
  }

  // What the sender authenticated for packet i.
  function SealedInput(k: Secret, plaintexts: seq<seq<byte>>, i: nat): seq<byte>
    requires k.Valid() && i < |plaintexts|
  {
    var st := Before(k, plaintexts, i);
    MacInput(st.packets, Ciphertext(k, st, plaintexts[i]))
  }

  // Whatever arrives in whatever order, the accepted plaintexts continue the prefix the receiver
  // already has, byte for byte, and its state is the sender's after that prefix.
  lemma {:induction false} AcceptedFrom(k: Secret, mac: Mac, plaintexts: seq<seq<byte>>, deliveries: seq<seq<byte>>, m: nat)
    returns (n: nat)
    requires k.Valid() && m <= |plaintexts| < TWO_64
    requires NoForgery(k, mac, plaintexts, deliveries)
    ensures m <= n <= |plaintexts|
    ensures Receive(k, mac, Before(k, plaintexts, m), deliveries) == Received(Before(k, plaintexts, n), plaintexts[m..n])
    decreases |deliveries|
  {
    hide Secret.Valid, StreamBytes, MacInput, Advance;
    if deliveries == [] {
      n := m;
    } else {
      var d, st := deliveries[0], Before(k, plaintexts, m);
      PacketsBefore(k, plaintexts, m);
      assert d in deliveries;
      assert forall e :: e in deliveries[1..] ==> e in deliveries;
      if Open(k, mac, st, d).Rejected? {
        n := AcceptedFrom(k, mac, plaintexts, deliveries[1..], m);
      } else {
        assert Verifies(mac, m, d);
        var i :| 0 <= i < |plaintexts| && MacInput(m, d[TAG_SIZE..]) == SealedInput(k, plaintexts, i);
        PacketsBefore(k, plaintexts, i);
        MacInputInjective(m, d[TAG_SIZE..], i, Ciphertext(k, Before(k, plaintexts, i), plaintexts[i]));
        assert i == m;
        StreamBytesTwice(k, st.spent, plaintexts[m]);
        n := AcceptedFrom(k, mac, plaintexts, deliveries[1..], m + 1);
        assert plaintexts[m..n] == [plaintexts[m]] + plaintexts[m + 1..n];
      }
    }
  }

  // The receiver's plaintexts are always a prefix of the sender's.
  lemma AcceptedIsPrefix(k: Secret, mac: Mac, plaintexts: seq<seq<byte>>, deliveries: seq<seq<byte>>)
    requires k.Valid() && |plaintexts| < TWO_64
    requires NoForgery(k, mac, plaintexts, deliveries)
    ensures Receive(k, mac, PacketState(0, 0), deliveries).plaintexts <= plaintexts
  {
    hide Secret.Valid, Receive;
    var n := AcceptedFrom(k, mac, plaintexts, deliveries, 0);
    assert plaintexts[0..n] <= plaintexts;
  }

  // The MAC does not collide on the inputs of this run: a sealed ciphertext at a sealed counter.
  ghost predicate InjectiveOnRun(k: Secret, mac: Mac, plaintexts: seq<seq<byte>>)
    requires k.Valid()
  {
    forall i, c: nat :: 0 <= i < |plaintexts| && c <= |plaintexts| ==>
      var x := Ciphertext(k, Before(k, plaintexts, i), plaintexts[i]);
      mac(MacInput(c, x)) == mac(SealedInput(k, plaintexts, i)) ==> MacInput(c, x) == SealedInput(k, plaintexts, i)
  }

  // A channel that only drops, repeats and reorders sealed packets forges nothing.
  lemma ReplayIsNoForgery(k: Secret, mac: Mac, plaintexts: seq<seq<byte>>, deliveries: seq<seq<byte>>)
    requires k.Valid()
    requires InjectiveOnRun(k, mac, plaintexts)
    requires forall d :: d in deliveries ==> d in Frames(k, mac, plaintexts)
    ensures NoForgery(k, mac, plaintexts, deliveries)
  {
    hide Secret.Valid, StreamBytes, MacInput, Before;
    forall d, c: nat | d in deliveries && c <= |plaintexts| && Verifies(mac, c, d)
      ensures Authenticated(k, plaintexts, c, d)
    {
      var i :| 0 <= i < |plaintexts| && d == Frames(k, mac, plaintexts)[i];
      var x := Ciphertext(k, Before(k, plaintexts, i), plaintexts[i]);
      assert d[TAG_SIZE..] == x && d[..TAG_SIZE] == mac(SealedInput(k, plaintexts, i));
      assert MacInput(c, d[TAG_SIZE..]) == SealedInput(k, plaintexts, i);
    }
  }

  lemma ReplayedIsPrefix(k: Secret, mac: Mac, plaintexts: seq<seq<byte>>, deliveries: seq<seq<byte>>)
    requires k.Valid() && |plaintexts| < TWO_64
    requires InjectiveOnRun(k, mac, plaintexts)
    requires forall d :: d in deliveries ==> d in Frames(k, mac, plaintexts)
    ensures Receive(k, mac, PacketState(0, 0), deliveries).plaintexts <= plaintexts
  {
    hide Secret.Valid, Receive, NoForgery, InjectiveOnRun;
    ReplayIsNoForgery(k, mac, plaintexts, deliveries);
    AcceptedIsPrefix(k, mac, plaintexts, deliveries);
  }

  // ----- the bound is exact -----

  lemma {:induction false} ReceiveConcat(k: Secret, mac: Mac, st: PacketState, a: seq<seq<byte>>, b: seq<seq<byte>>)
    requires k.Valid()
    ensures var first := Receive(k, mac, st, a);
            var rest := Receive(k, mac, first.state, b);
            Receive(k, mac, st, a + b) == Received(rest.state, first.plaintexts + rest.plaintexts)
    decreases |a|
  {
    hide Secret.Valid, Open, AfterOpen;
    if a == [] {
      assert a + b == b;
    } else {
      assert (a + b)[1..] == a[1..] + b;
      ReceiveConcat(k, mac, AfterOpen(k, mac, st, a[0]), a[1..], b);
    }
  }

  // After 2^64 more packets the counter is back where it was, and an old packet verifies again.
  lemma WrappedVerifies(k: Secret, mac: Mac, plaintexts: seq<seq<byte>>, i: nat, st: PacketState)
    requires k.Valid() && i < |plaintexts| && st.packets == i + TWO_64
    ensures Open(k, mac, st, Frames(k, mac, plaintexts)[i]).Accepted?
  {
    hide Secret.Valid, StreamBytes, MacInput, Before, Frames;
    PacketsBefore(k, plaintexts, i);
    var c := Ciphertext(k, Before(k, plaintexts, i), plaintexts[i]);
    FrameIs(k, mac, plaintexts, i);
    var d := mac(MacInput(i, c)) + c;
    assert d[TAG_SIZE..] == c && d[..TAG_SIZE] == mac(MacInput(i, c));
    SameInput(i, c);
  }

  lemma FrameIs(k: Secret, mac: Mac, plaintexts: seq<seq<byte>>, i: nat)
    requires k.Valid() && i < |plaintexts|
    ensures var c := Ciphertext(k, Before(k, plaintexts, i), plaintexts[i]);
            Frames(k, mac, plaintexts)[i] == mac(MacInput(Before(k, plaintexts, i).packets, c)) + c
  {
    hide Secret.Valid, StreamBytes, MacInput, Before;
  }

  lemma SameInput(i: nat, c: seq<byte>)
    ensures MacInput(i + TWO_64, c) == MacInput(i, c)
  {
    hide BeBytes;
    assert (i + TWO_64) % TWO_64 == i % TWO_64;
  }

  // Everything in order, then the packet sent 2^64 packets ago once more.
  function WrapAround(k: Secret, mac: Mac, plaintexts: seq<seq<byte>>): seq<seq<byte>>
    requires k.Valid() && |plaintexts| >= TWO_64
  {
    Frames(k, mac, plaintexts) + [Frames(k, mac, plaintexts)[|plaintexts| - TWO_64]]
  }

  lemma WrapAroundAccepted(k: Secret, mac: Mac, plaintexts: seq<seq<byte>>)
    requires k.Valid() && |plaintexts| >= TWO_64
    ensures |Receive(k, mac, PacketState(0, 0), WrapAround(k, mac, plaintexts)).plaintexts| == |plaintexts| + 1
  {
    hide Secret.Valid, Open, Frames, Before, Advance;
    var n := |plaintexts|;
    var frames := Frames(k, mac, plaintexts);
    var st := Before(k, plaintexts, n);
    assert Before(k, plaintexts, 0) == PacketState(0, 0) by { NothingBefore(k, plaintexts); }
    assert frames[0..] == frames && plaintexts[0..] == plaintexts;
    InOrder(k, mac, plaintexts, 0);
    PacketsBefore(k, plaintexts, n);
    WrappedVerifies(k, mac, plaintexts, n - TWO_64, st);
    ReceiveConcat(k, mac, PacketState(0, 0), frames, [frames[n - TWO_64]]);
    assert [frames[n - TWO_64]][1..] == [];
  }

  lemma NothingBefore(k: Secret, plaintexts: seq<seq<byte>>)
    requires k.Valid()
    ensures Before(k, plaintexts, 0) == PacketState(0, 0)
  {}

  // Dropping, repeating and reordering leaves the receiver a prefix, whatever is delivered, exactly
  // when fewer than 2^64 packets were sealed.
  lemma ReplayedIsPrefixIff(k: Secret, mac: Mac, plaintexts: seq<seq<byte>>)
    requires k.Valid() && InjectiveOnRun(k, mac, plaintexts)
    ensures |plaintexts| < TWO_64 <==>
            forall deliveries: seq<seq<byte>> :: (forall d :: d in deliveries ==> d in Frames(k, mac, plaintexts)) ==>
              Receive(k, mac, PacketState(0, 0), deliveries).plaintexts <= plaintexts
  {
    hide Secret.Valid, Receive, InjectiveOnRun, Frames;
    if |plaintexts| < TWO_64 {
      forall deliveries: seq<seq<byte>> | forall d :: d in deliveries ==> d in Frames(k, mac, plaintexts)
        ensures Receive(k, mac, PacketState(0, 0), deliveries).plaintexts <= plaintexts
      {
        ReplayedIsPrefix(k, mac, plaintexts, deliveries);
      }
    } else {
      WrapAroundAccepted(k, mac, plaintexts);
      assert forall d :: d in WrapAround(k, mac, plaintexts) ==> d in Frames(k, mac, plaintexts);
    }
  }

  // The same bound for any channel that forges nothing.
  lemma AcceptedIsPrefixIff(k: Secret, mac: Mac, plaintexts: seq<seq<byte>>)
    requires k.Valid() && InjectiveOnRun(k, mac, plaintexts)
    ensures |plaintexts| < TWO_64 <==>
            forall deliveries :: NoForgery(k, mac, plaintexts, deliveries) ==>
              Receive(k, mac, PacketState(0, 0), deliveries).plaintexts <= plaintexts
  {
    hide Secret.Valid, Receive, InjectiveOnRun, NoForgery, Frames;
    if |plaintexts| < TWO_64 {
      forall deliveries | NoForgery(k, mac, plaintexts, deliveries)
        ensures Receive(k, mac, PacketState(0, 0), deliveries).plaintexts <= plaintexts
      {
        AcceptedIsPrefix(k, mac, plaintexts, deliveries);
      }
    } else {
      WrapAroundAccepted(k, mac, plaintexts);
      ReplayIsNoForgery(k, mac, plaintexts, WrapAround(k, mac, plaintexts));
    }
  }
}

/** The code of the packet stream. */
module PacketStreams {
  import opened Bytes
  import opened StreamSpec
  import opened StreamRuns
  import opened Streams
  import opened PacketSpec
  import Cipher

  // update followed by finalize, with an empty buffer before and after.
  lemma OneMessage(k: Secret, spent: nat, x: seq<bv64>)
    requires k.Valid()
    ensures var first := Step(k, State(spent, []), Call.Update(x));
            var last := Step(k, first.next, Call.Finalize);
            && first.out + last.out == CtrCells(k, spent, x)
            && last.next == State(spent + Blocks(k, |x|), [])
  {
    hide Secret.Valid, CtrCells, Step, Run, Blocks, Secret.Size;
    SizePositive(k);
    assert Feed([x]) == [Call.Update(x)] + [Call.Finalize] by { assert [x][1..] == []; }
    assert [] + Flatten([x]) == x by { assert [x][1..] == []; assert Flatten([x]) == x + []; }
    FeedResult(k, State(spent, []), [x]);
    var first := Step(k, State(spent, []), Call.Update(x));
    RunHead(k, State(spent, []), Call.Update(x), [Call.Finalize]);
    RunHead(k, first.next, Call.Finalize, []);
    assert [Call.Finalize] + [] == [Call.Finalize];
    RunNothing(k, Step(k, first.next, Call.Finalize).next);
  }

  lemma RunNothing(k: Secret, st: State)
    requires k.Valid()
    ensures Run(k, st, []) == Effect(st, [], [])
  {}

  // Runs a byte string through a stream and flushes it.
  method Through(stream: RexStream, data: seq<byte>) returns (output: seq<byte>)
    requires stream.Valid() && stream.buffer == []
    modifies stream`blockCounter, stream`buffer, stream`spent
    ensures stream.Valid() && stream.buffer == []
    ensures output == StreamBytes(stream.k, old(stream.spent), data)
    ensures stream.spent == old(stream.spent) + Blocks(stream.k, (|data| + 7) / 8)
  {
    hide Secret.Valid, Step, CtrCells, Cipher.Schedule.Valid, BytesToCells, CellsToBytes, Blocks;
    var input := BytesToCells(data);
    OneMessage(stream.k, stream.spent, input);
    CtrLength(stream.k, stream.spent, input);
    var cells := stream.Update(input);
    var tail := stream.Finalize();
    output := CellsToBytes(cells + tail)[..|data|];
  }

  class RexPacketStream {
    const stream: RexStream
    const mac: Mac
    var counter: nat            // u64
    ghost var packets: nat      // packets processed since the stream was made

    ghost predicate Valid()
      reads this, stream, stream.nonce.cells, (set g | g in stream.keys :: g.cells)
    {
      && stream.Valid() && stream.buffer == []
      && counter == packets % TWO_64
    }

    ghost function Now(): PacketState
      reads this, stream
    {
      PacketState(stream.spent, packets)
    }

    constructor (stream: RexStream, mac: Mac)
      requires stream.Valid() && stream.Now() == State(0, [])
      ensures Valid() && Now() == PacketState(0, 0) && this.stream == stream && this.mac == mac
    {
      this.stream, this.mac := stream, mac;
      counter, packets := 0, 0;
    }

    // The tag over a ciphertext at the current counter.
    method Tagged(ciphertext: seq<byte>) returns (tag: Tag)
      requires Valid()
      ensures tag == mac(MacInput(packets, ciphertext))
    {
      hide BeBytes;
      SameBe64(counter, packets);
      tag := mac(Be64(counter) + Be64(|ciphertext|) + ciphertext);
    }

    // Encrypts and authenticates one packet.
    method Seal(plaintext: seq<byte>) returns (frame: seq<byte>)
      requires Valid()
      modifies this`counter, this`packets, stream`blockCounter, stream`buffer, stream`spent
      ensures Valid()
      ensures frame == Sealed(stream.k, mac, old(Now()), plaintext)
      ensures Now() == Advance(stream.k, old(Now()), |plaintext|)
    {
      hide Secret.Valid, StreamBytes, MacInput, Blocks;
      var ciphertext := Through(stream, plaintext);
      var tag := Tagged(ciphertext);
      counter := (counter + 1) % TWO_64;
      packets := packets + 1;
      frame := tag + ciphertext;
    }

    // Verifies before it decrypts; a rejected packet changes nothing.
    method Open(data: seq<byte>) returns (r: Opened)
      requires Valid()
      modifies this`counter, this`packets, stream`blockCounter, stream`buffer, stream`spent
      ensures Valid()
      ensures r == PacketSpec.Open(stream.k, mac, old(Now()), data)
      ensures Now() == AfterOpen(stream.k, mac, old(Now()), data)
      ensures r.Rejected? ==> unchanged(this) && unchanged(stream)
    {
      hide Secret.Valid, StreamBytes, MacInput, Blocks;
      if |data| < TAG_SIZE { return Rejected; }
      var tag, ciphertext := data[..TAG_SIZE], data[TAG_SIZE..];
      var expected := Tagged(ciphertext);
      if expected != tag { return Rejected; }
      counter := (counter + 1) % TWO_64;
      packets := packets + 1;
      var plaintext := Through(stream, ciphertext);
      r := Accepted(plaintext);
    }
  }

  lemma SameBe64(a: nat, b: nat)
    requires a == b % TWO_64
    ensures Be64(a) == Be64(b)
  {}
}
