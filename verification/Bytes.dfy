/** Big-endian bytes of a cell (i64::to_be_bytes / from_be_bytes), the unsigned value of a cell,
    and the packing of byte strings into cells (chat/src/crypto/mod.rs, bytes_to_i64 and
    i64_to_bytes). */
module Bytes {
  import opened Bits

  type byte = bv8

  function Xor8(a: byte, b: byte): byte { a ^ b }

  function Pack(b: seq<byte>): bv64
    requires |b| == 8
  {
    (b[0] as bv64 << 56) | (b[1] as bv64 << 48) | (b[2] as bv64 << 40) | (b[3] as bv64 << 32)
    | (b[4] as bv64 << 24) | (b[5] as bv64 << 16) | (b[6] as bv64 << 8) | b[7] as bv64
  }

  // Byte i of a cell, most significant first.
  function ByteAt(c: bv64, i: nat): byte
    requires i < 8
  {
    if i == 0 then ((c >> 56) & 0xFF) as bv8
    else if i == 1 then ((c >> 48) & 0xFF) as bv8
    else if i == 2 then ((c >> 40) & 0xFF) as bv8
    else if i == 3 then ((c >> 32) & 0xFF) as bv8
    else if i == 4 then ((c >> 24) & 0xFF) as bv8
    else if i == 5 then ((c >> 16) & 0xFF) as bv8
    else if i == 6 then ((c >> 8) & 0xFF) as bv8
    else (c & 0xFF) as bv8
  }

  function Unpack(c: bv64): (b: seq<byte>)
    ensures |b| == 8
  {
    seq(8, i requires 0 <= i < 8 => ByteAt(c, i))
  }

  lemma ByteOfPack(b: seq<byte>, i: nat)
    requires |b| == 8 && i < 8
    ensures ByteAt(Pack(b), i) == b[i]
  {
    if i == 0 {
    } else if i == 1 {
    } else if i == 2 {
    } else if i == 3 {
    } else if i == 4 {
    } else if i == 5 {
    } else if i == 6 {
    }
  }

  lemma UnpackPack(b: seq<byte>)
    requires |b| == 8
    ensures Unpack(Pack(b)) == b
  {
    hide ByteAt, Pack;
    forall i | 0 <= i < 8 ensures Unpack(Pack(b))[i] == b[i] {
      ByteOfPack(b, i);
    }
  }

  lemma PackUnpack(c: bv64)
    ensures Pack(Unpack(c)) == c
  {
    var b := Unpack(c);
    PackOf(b[0], b[1], b[2], b[3], b[4], b[5], b[6], b[7], c);
  }

  lemma PackOf(a0: byte, a1: byte, a2: byte, a3: byte, a4: byte, a5: byte, a6: byte, a7: byte, c: bv64)
    requires a0 == ((c >> 56) & 0xFF) as bv8 && a1 == ((c >> 48) & 0xFF) as bv8 && a2 == ((c >> 40) & 0xFF) as bv8 && a3 == ((c >> 32) & 0xFF) as bv8
    requires a4 == ((c >> 24) & 0xFF) as bv8 && a5 == ((c >> 16) & 0xFF) as bv8 && a6 == ((c >> 8) & 0xFF) as bv8 && a7 == (c & 0xFF) as bv8
    ensures (a0 as bv64 << 56) | (a1 as bv64 << 48) | (a2 as bv64 << 40) | (a3 as bv64 << 32)
    | (a4 as bv64 << 24) | (a5 as bv64 << 16) | (a6 as bv64 << 8) | a7 as bv64 == c
  {}

  lemma ByteOfSum(a: bv64, b: bv64, i: nat)
    requires i < 8
    ensures ByteAt(a ^ b, i) == ByteAt(a, i) ^ ByteAt(b, i)
  {
    if i == 0 {
    } else if i == 1 {
    } else if i == 2 {
    } else if i == 3 {
    } else if i == 4 {
    } else if i == 5 {
    } else if i == 6 {
    }
  }

  lemma ByteXor(a: bv64, b: bv64, i: nat)
    requires i < 8
    ensures ByteAt(Xor(a, b), i) == Xor8(ByteAt(a, i), ByteAt(b, i))
  {
    hide Xor, ByteAt, Xor8;
    XorDef(a, b);
    ByteOfSum(a, b, i);
    Xor8Def(ByteAt(a, i), ByteAt(b, i));
  }

  // ----- the unsigned value of a cell -----

  // The number a byte string spells, most significant byte first.
  function BeNat(s: seq<byte>): nat {
    if |s| == 0 then 0 else BeNat(s[..|s| - 1]) * 256 + s[|s| - 1] as nat
  }

  function BeBytes(n: nat, k: nat): (s: seq<byte>)
    ensures |s| == k
  {
    if k == 0 then [] else BeBytes(n / 256, k - 1) + [ByteOf(n % 256)]
  }

  function Power(b: nat, e: nat): (p: nat)
    requires b > 0
    ensures p > 0
  {
    if e == 0 then 1 else b * Power(b, e - 1)
  }

  // n as u8
  function ByteOf(n: nat): byte {
    if n == 0 then 0 else ByteOf(n - 1) + 1
  }

  lemma ByteSuccessor(x: byte)
    requires x != 255
    ensures (x + 1) as nat == x as nat + 1
  {}

  lemma ByteMax(x: byte)
    requires x == 255
    ensures x as nat == 255
  {}

  lemma {:induction false} SmallByte(n: nat)
    requires n < 256
    ensures ByteOf(n) as nat == n
  {
    if n > 0 {
      SmallByte(n - 1);
      if ByteOf(n - 1) == 255 { ByteMax(ByteOf(n - 1)); }
      ByteSuccessor(ByteOf(n - 1));
    }
  }

  lemma ByteBack(b: byte)
    ensures (b as nat) < 256 && ByteOf(b as nat) == b
  {
    ByteRange(b);
    SmallByte(b as nat);
    ByteInjective(ByteOf(b as nat), b);
  }

  lemma ByteRange(b: byte)
    ensures (b as nat) < 256
  {}

  lemma ByteInjective(a: byte, b: byte)
    requires a as nat == b as nat
    ensures a == b
  {
    assert (a as nat) as bv8 == a && (b as nat) as bv8 == b;
  }

  lemma {:induction false} NatOfBytes(n: nat, k: nat)
    requires n < Power(256, k)
    ensures BeNat(BeBytes(n, k)) == n
  {
    hide ByteOf;
    if k > 0 {
      NatOfBytes(n / 256, k - 1);
      SmallByte(n % 256);
      assert BeBytes(n, k)[..k - 1] == BeBytes(n / 256, k - 1);
    }
  }

  lemma {:induction false} BytesOfNat(s: seq<byte>)
    ensures BeNat(s) < Power(256, |s|)
    ensures BeBytes(BeNat(s), |s|) == s
  {
    hide ByteOf;
    if |s| > 0 {
      var t, d := s[..|s| - 1], s[|s| - 1];
      var q, r := BeNat(t), d as nat;
      BytesOfNat(t);
      ByteBack(d);
      LastDigit(q, r);
      assert BeNat(s) == q * 256 + r;
      assert BeBytes(q * 256 + r, |s|) == BeBytes(q, |s| - 1) + [ByteOf(r)];
      assert s == t + [d];
    }
  }

  lemma LastDigit(q: nat, r: nat)
    requires r < 256
    ensures (q * 256 + r) / 256 == q && (q * 256 + r) % 256 == r
  {}

  const TWO_64: nat := 0x1_0000_0000_0000_0000

  // cell as u64
  function U64(c: bv64): (n: nat) {
    BeNat(Unpack(c))
  }

  // n as u64, keeping the low 64 bits
  function Cell(n: nat): bv64 {
    Pack(BeBytes(n % TWO_64, 8))
  }

  lemma Power256()
    ensures Power(256, 8) == TWO_64
  {
    assert Power(256, 4) == 0x1_0000_0000;
    assert Power(256, 8) == 256 * (256 * (256 * (256 * Power(256, 4))));
  }

  lemma U64OfCell(n: nat)
    ensures U64(Cell(n)) == n % TWO_64
  {
    hide Unpack, Pack, BeNat, BeBytes, Power;
    Power256();
    NatOfBytes(n % TWO_64, 8);
    UnpackPack(BeBytes(n % TWO_64, 8));
  }

  lemma CellOfU64(c: bv64)
    ensures U64(c) < TWO_64 && Cell(U64(c)) == c
  {
    hide Unpack, Pack, BeNat, BeBytes, Power;
    Power256();
    BytesOfNat(Unpack(c));
    PackUnpack(c);
  }

  // ----- that value is the number the machine adds -----

  // Eight bytes, most significant first.
  lemma BeEight(b: seq<byte>)
    requires |b| == 8
    ensures BeNat(b) == b[0] as nat * 0x100_0000_0000_0000 + b[1] as nat * 0x1_0000_0000_0000 + b[2] as nat * 0x100_0000_0000
                        + b[3] as nat * 0x1_0000_0000 + b[4] as nat * 0x100_0000 + b[5] as nat * 0x1_0000
                        + b[6] as nat * 0x100 + b[7] as nat
  {
    hide BeNat;
    BeNothing(b[..0]);
    BeTake(b, 0);
    BeTake(b, 1);
    BeTake(b, 2);
    BeTake(b, 3);
    BeTake(b, 4);
    BeTake(b, 5);
    BeTake(b, 6);
    BeTake(b, 7);
    assert b[..8] == b;
  }

  lemma BeTake(b: seq<byte>, k: nat)
    requires k < |b|
    ensures BeNat(b[..k + 1]) == BeNat(b[..k]) * 256 + b[k] as nat
  {
    assert b[..k + 1] == b[..k] + [b[k]];
    BeLast(b[..k], b[k]);
  }

  lemma BeNothing(b: seq<byte>)
    requires b == []
    ensures BeNat(b) == 0
  {}

  lemma BeLast(b: seq<byte>, d: byte)
    ensures BeNat(b + [d]) == BeNat(b) * 256 + d as nat
  {
    assert (b + [d])[..|b|] == b;
  }

  // The last byte, and the seven above it.
  lemma U64Split(c: bv64)
    ensures U64(c) == U64(c >> 8) * 256 + ByteAt(c, 7) as nat
  {
    hide ByteAt, BeNat;
    var b, up := Unpack(c), Unpack(c >> 8);
    TopByte(c);
    forall i | 1 <= i < 8 ensures up[i] == b[i - 1] { ByteShifted(c, i); }
    assert up == [0] + b[..7];
    assert b == b[..7] + [b[7]];
    BeLast(b[..7], b[7]);
    LeadingZero(b[..7]);
  }

  lemma TopByte(c: bv64)
    ensures ByteAt(c >> 8, 0) == 0
  {}

  lemma ByteShifted(c: bv64, i: nat)
    requires 1 <= i < 8
    ensures ByteAt(c >> 8, i) == ByteAt(c, i - 1)
  {
    if i == 1 {
    } else if i == 2 {
    } else if i == 3 {
    } else if i == 4 {
    } else if i == 5 {
    } else if i == 6 {
    }
  }

  lemma {:induction false} LeadingZero(b: seq<byte>)
    ensures BeNat([0] + b) == BeNat(b)
  {
    if b == [] {
      assert [0] + b == [] + [0 as byte];
      BeLast([], 0);
    } else {
      var n := |b| - 1;
      assert b == b[..n] + [b[n]];
      assert [0] + b == ([0] + b[..n]) + [b[n]];
      LeadingZero(b[..n]);
      BeLast([0] + b[..n], b[n]);
      BeLast(b[..n], b[n]);
    }
  }

  lemma {:induction false} U64Next(c: bv64)
    requires c != 0xFFFF_FFFF_FFFF_FFFF
    ensures U64(c + 1) == U64(c) + 1
    decreases c
  {
    hide U64, ByteAt;
    U64Split(c);
    U64Split(c + 1);
    if ByteAt(c, 7) != 255 {
      NoCarryUp(c);
      NoCarryLast(c);
      ByteSuccessor(ByteAt(c, 7));
    } else {
      CarryUp(c);
      CarryLast(c);
      ByteMax(ByteAt(c, 7));
      Smaller(c);
      U64Next(c >> 8);
    }
  }

  lemma NoCarryUp(c: bv64)
    requires ByteAt(c, 7) != 255
    ensures (c + 1) >> 8 == c >> 8
  {}

  lemma NoCarryLast(c: bv64)
    requires ByteAt(c, 7) != 255
    ensures ByteAt(c + 1, 7) == ByteAt(c, 7) + 1
  {}

  lemma CarryUp(c: bv64)
    requires ByteAt(c, 7) == 255 && c != 0xFFFF_FFFF_FFFF_FFFF
    ensures (c + 1) >> 8 == (c >> 8) + 1
  {}

  lemma CarryLast(c: bv64)
    requires ByteAt(c, 7) == 255
    ensures ByteAt(c + 1, 7) == 0
  {}

  lemma Smaller(c: bv64)
    requires ByteAt(c, 7) == 255
    ensures c >> 8 < c && c >> 8 != 0xFFFF_FFFF_FFFF_FFFF
  {}

  lemma U64Ends()
    ensures U64(0) == 0 && U64(0xFFFF_FFFF_FFFF_FFFF) == TWO_64 - 1
  {
    hide ByteAt;
    forall i | 0 <= i < 8 ensures ByteAt(0, i) == 0 && ByteAt(0xFFFF_FFFF_FFFF_FFFF, i) == 255 { EndBytes(i); }
    BeEight(Unpack(0));
    BeEight(Unpack(0xFFFF_FFFF_FFFF_FFFF));
    ByteMax(255);
  }

  lemma EndBytes(i: nat)
    requires i < 8
    ensures ByteAt(0, i) == 0 && ByteAt(0xFFFF_FFFF_FFFF_FFFF, i) == 255
  {}

  // Wrapping addition.
  function Add(a: bv64, b: bv64): bv64 { a + b }

  function Inc(c: bv64): bv64 { c + 1 }

  function Dec(c: bv64): bv64 { c - 1 }

  // Wrapping addition of cells adds these values modulo 2^64.
  lemma {:induction false} U64Sum(a: bv64, b: bv64)
    ensures U64(Add(a, b)) == (U64(a) + U64(b)) % TWO_64
    decreases b
  {
    hide U64, Add, Inc, Dec;
    if b == 0 {
      SumOfZero(a, b);
    } else {
      DecIs(b);
      U64Sum(a, Dec(b));
      SumStep(a, b);
    }
  }

  lemma SumOfZero(a: bv64, b: bv64)
    requires b == 0
    ensures U64(Add(a, b)) == (U64(a) + U64(b)) % TWO_64
  {
    hide U64, Add;
    CellOfU64(a);
    U64Ends();
    AddNothing(a);
    ModSmall(U64(a));
  }

  lemma SumStep(a: bv64, b: bv64)
    requires b != 0 && U64(Add(a, Dec(b))) == (U64(a) + U64(Dec(b))) % TWO_64
    ensures U64(Add(a, b)) == (U64(a) + U64(b)) % TWO_64
  {
    hide U64, Add, Inc, Dec;
    AddStep(a, b);
    U64Inc(Add(a, Dec(b)));
    U64Dec(b);
    ModNext(U64(a) + U64(Dec(b)));
  }

  lemma ModSmall(n: nat)
    requires n < TWO_64
    ensures n % TWO_64 == n
  {}

  lemma ModNext(n: nat)
    ensures (n % TWO_64 + 1) % TWO_64 == (n + 1) % TWO_64
  {}

  lemma AddNothing(a: bv64)
    ensures Add(a, 0) == a
  {}

  lemma DecIs(b: bv64)
    requires b != 0
    ensures Dec(b) < b && Inc(Dec(b)) == b && Dec(b) != 0xFFFF_FFFF_FFFF_FFFF
  {}

  lemma U64Dec(b: bv64)
    requires b != 0
    ensures U64(b) == U64(Dec(b)) + 1
  {
    hide U64, Inc, Dec;
    DecIs(b);
    IncBelow(Dec(b));
  }

  lemma IncBelow(c: bv64)
    requires c != 0xFFFF_FFFF_FFFF_FFFF
    ensures U64(Inc(c)) == U64(c) + 1
  {
    hide U64;
    U64Next(c);
  }

  lemma IncTop(c: bv64)
    requires c == 0xFFFF_FFFF_FFFF_FFFF
    ensures U64(Inc(c)) == 0 && U64(c) == TWO_64 - 1
  {
    hide U64;
    U64Ends();
    TopWraps();
  }

  lemma TopWraps()
    ensures Inc(0xFFFF_FFFF_FFFF_FFFF) == 0
  {}

  // The successor, wrapping at the top.
  lemma U64Inc(c: bv64)
    ensures U64(Inc(c)) == (U64(c) + 1) % TWO_64
  {
    hide U64, Inc;
    if c == 0xFFFF_FFFF_FFFF_FFFF {
      IncTop(c);
      LastWraps();
    } else {
      IncInside(c);
    }
  }

  lemma LastWraps()
    ensures (TWO_64 - 1 + 1) % TWO_64 == 0
  {}

  lemma IncInside(c: bv64)
    requires c != 0xFFFF_FFFF_FFFF_FFFF
    ensures U64(Inc(c)) == (U64(c) + 1) % TWO_64
  {
    hide U64, Inc;
    IncBelow(c);
    CellOfU64(Inc(c));
    ModSmall(U64(c) + 1);
  }

  lemma AddStep(a: bv64, b: bv64)
    ensures Add(a, b) == Inc(Add(a, Dec(b)))
  {
    hide Add, Inc, Dec;
    AddRaw(a, b);
    DecRaw(a, b);
    InnerRaw(a, b);
    IncRaw(a, b);
  }

  lemma DecRaw(a: bv64, b: bv64)
    ensures Inc(Add(a, Dec(b))) == Inc(Add(a, b - 1))
  {
    hide Add, Inc;
  }

  lemma InnerRaw(a: bv64, b: bv64)
    ensures Inc(Add(a, b - 1)) == Inc(a + (b - 1))
  {
    hide Inc;
  }

  lemma IncRaw(a: bv64, b: bv64)
    ensures Inc(a + (b - 1)) == a + b
  {}

  lemma AddRaw(a: bv64, b: bv64)
    ensures Add(a, b) == a + b
  {}

  // ----- byte strings as cells -----

  // Byte t of the i-th cell of a byte string: past the end it is padding.
  function ByteOrZero(b: seq<byte>, j: nat): byte {
    if j < |b| then b[j] else 0
  }

  function BytesToCells(b: seq<byte>): (c: seq<bv64>)
    ensures |c| == (|b| + 7) / 8
  {
    seq((|b| + 7) / 8, i requires 0 <= i => Pack(seq(8, t requires 0 <= t < 8 => ByteOrZero(b, 8 * i + t))))
  }

  // Each cell spells its eight bytes, the first one most significant; past the end they are zero.
  lemma CellSpells(b: seq<byte>, i: nat)
    requires i < |BytesToCells(b)|
    ensures U64(BytesToCells(b)[i]) == BeNat(seq(8, t requires 0 <= t < 8 => ByteOrZero(b, 8 * i + t)))
  {
    hide Pack, Unpack, BeNat;
    UnpackPack(seq(8, t requires 0 <= t < 8 => ByteOrZero(b, 8 * i + t)));
  }

  function CellsToBytes(c: seq<bv64>): (b: seq<byte>)
    ensures |b| == 8 * |c|
  {
    seq(8 * |c|, j requires 0 <= j < 8 * |c| => ByteAt(c[j / 8], j % 8))
  }

  // Packing and unpacking only adds the zero padding of the last cell.
  lemma CellsOfBytes(b: seq<byte>, j: nat)
    requires j < 8 * |BytesToCells(b)|
    ensures CellsToBytes(BytesToCells(b))[j] == ByteOrZero(b, j)
  {
    hide Pack, ByteAt;
    var i := j / 8;
    var chunk := seq(8, t requires 0 <= t < 8 => ByteOrZero(b, 8 * i + t));
    assert BytesToCells(b)[i] == Pack(chunk);
    ByteOfPack(chunk, j % 8);
  }

  function XorBytes(x: seq<byte>, k: seq<byte>): (y: seq<byte>)
    requires |x| <= |k|
    ensures |y| == |x|
  {
    seq(|x|, i requires 0 <= i < |x| => Xor8(x[i], k[i]))
  }

  // Encrypting packed cells and truncating is encrypting the bytes: the padding never shows.
  lemma XorPacked(b: seq<byte>, k: seq<bv64>)
    requires |k| == |BytesToCells(b)|
    ensures CellsToBytes(XorCells(BytesToCells(b), k))[..|b|] == XorBytes(b, CellsToBytes(k))
  {
    hide Xor, ByteAt, BytesToCells, Xor8;
    var y := CellsToBytes(XorCells(BytesToCells(b), k));
    forall j | 0 <= j < |b| ensures y[j] == XorBytes(b, CellsToBytes(k))[j] {
      ByteXor(BytesToCells(b)[j / 8], k[j / 8], j % 8);
      CellsOfBytes(b, j);
    }
  }

  lemma XorBytesTwice(b: seq<byte>, k: seq<byte>)
    requires |b| <= |k|
    ensures XorBytes(XorBytes(b, k), k) == b
  {
    hide Xor8;
    forall i | 0 <= i < |b| ensures XorBytes(XorBytes(b, k), k)[i] == b[i] {
      ByteCancel(b[i], k[i]);
    }
  }

  // The group laws a round trip on bytes needs.
  lemma ByteCancel(a: byte, b: byte)
    ensures Xor8(Xor8(a, b), b) == a
    ensures Xor8(Xor8(a, b), a) == b
    ensures Xor8(a, Xor8(a, b)) == b
  {
    hide Xor8;
    Xor8Def(a, b);
    CancelRight(a, b);
    CancelLeft(a, b);
    CancelInner(a, b);
  }

  lemma Xor8Def(a: byte, b: byte)
    ensures Xor8(a, b) == a ^ b
  {}

  lemma CancelRight(a: byte, b: byte)
    ensures Xor8(a ^ b, b) == a
  {}

  lemma CancelLeft(a: byte, b: byte)
    ensures Xor8(a ^ b, a) == b
  {}

  lemma CancelInner(a: byte, b: byte)
    ensures Xor8(a, a ^ b) == b
  {}

  lemma ByteZero(a: byte)
    ensures Xor8(0, a) == a
  {}
}
