/** The ARX transform of one cell (core/src/grid.rs, subcell_cell) and its inverse. The two
    32-bit halves are kept in 64-bit words and masked after every addition, as the code does. */
module Arx {
  const MASK: bv64 := 0xFFFF_FFFF
  const DELTA_32: bv64 := 0x9E37_79B9
  const SUBCELL_ROUNDS: nat := 5

  datatype Halves = Halves(v0: bv64, v1: bv64) {
    predicate Masked() { v0 <= MASK && v1 <= MASK }
  }

  // What one half contributes to the other.
  function Feed(v: bv64, sum: bv64): bv64 {
    (((v << 4) ^ (v >> 5)) + v) ^ sum
  }

  // Addition and subtraction of 32-bit halves.
  function Plus(a: bv64, f: bv64): bv64 { (a + f) & 0xFFFF_FFFF }

  function Minus(a: bv64, f: bv64): bv64 { (a - f) & 0xFFFF_FFFF }

  function Step(h: Halves, sum: bv64): Halves {
    var v0 := Plus(h.v0, Feed(h.v1, sum));
    var v1 := Plus(h.v1, Feed(v0, sum));
    Halves(v0, v1)
  }

  function Unstep(h: Halves, sum: bv64): Halves {
    var v1 := Minus(h.v1, Feed(h.v0, sum));
    var v0 := Minus(h.v0, Feed(v1, sum));
    Halves(v0, v1)
  }

  function Advance(sum: bv64): bv64 { sum + DELTA_32 }

  // The running sum in round n; it is never masked.
  function Sum(n: nat): bv64 {
    if n == 0 then 0 else Advance(Sum(n - 1))
  }

  function Rounds(h: Halves, n: nat): Halves {
    if n == 0 then h else Step(Rounds(h, n - 1), Sum(n))
  }

  function Unrounds(h: Halves, n: nat): Halves
    decreases n
  {
    if n == 0 then h else Unrounds(Unstep(h, Sum(n)), n - 1)
  }

  function Split(cell: bv64): Halves {
    Halves(cell & MASK, (cell >> 32) & MASK)
  }

  function Join(h: Halves): bv64 {
    (h.v1 << 32) | h.v0
  }

  function Tweak(v: bv64, round: bv64): bv64 {
    (v ^ round) & MASK
  }

  function Cell(cell: bv64, round: bv64): bv64 {
    var h := Split(cell);
    var r := Rounds(h.(v0 := Tweak(h.v0, round)), SUBCELL_ROUNDS);
    Join(r.(v1 := Tweak(r.v1, round)))
  }

  function InverseCell(cell: bv64, round: bv64): bv64 {
    var h := Split(cell);
    var r := Unrounds(h.(v1 := Tweak(h.v1, round)), SUBCELL_ROUNDS);
    Join(r.(v0 := Tweak(r.v0, round)))
  }

  // The loop of the code.
  method ComputeCell(cell: bv64, round: bv64) returns (r: bv64)
    ensures r == Cell(cell, round)
  {
    hide Plus, Feed, Tweak, Split, Join, Advance;
    var h := Split(cell);
    var v0, v1, sum := h.v0, h.v1, 0 as bv64;
    v0 := Tweak(v0, round);
    ghost var start := Halves(v0, v1);
    for n := 0 to SUBCELL_ROUNDS
      invariant Halves(v0, v1) == Rounds(start, n)
      invariant sum == Sum(n)
    {
      sum := Advance(sum);
      v0 := Plus(v0, Feed(v1, sum));
      v1 := Plus(v1, Feed(v0, sum));
    }
    v1 := Tweak(v1, round);
    r := Join(Halves(v0, v1));
  }

  // ----- inverses -----

  lemma Small(a: bv64)
    requires a <= MASK
    ensures a & 0xFFFF_FFFF == a
  {}

  lemma PlusDef(a: bv64, f: bv64)
    ensures Plus(a, f) == (a + f) & 0xFFFF_FFFF
  {}

  lemma MinusDef(a: bv64, f: bv64)
    ensures Minus(a, f) == (a - f) & 0xFFFF_FFFF
  {}

  lemma MinusSum(a: bv64, f: bv64)
    ensures Minus((a + f) & 0xFFFF_FFFF, f) == a & 0xFFFF_FFFF
  {}

  lemma PlusDifference(a: bv64, f: bv64)
    ensures Plus((a - f) & 0xFFFF_FFFF, f) == a & 0xFFFF_FFFF
  {}

  lemma AddSub(a: bv64, f: bv64)
    requires a <= MASK
    ensures Minus(Plus(a, f), f) == a
  {
    hide Plus, Minus;
    PlusDef(a, f);
    MinusSum(a, f);
    Small(a);
  }

  lemma SubAdd(a: bv64, f: bv64)
    requires a <= MASK
    ensures Plus(Minus(a, f), f) == a
  {
    hide Plus, Minus;
    MinusDef(a, f);
    PlusDifference(a, f);
    Small(a);
  }

  lemma MaskedBelow(a: bv64, f: bv64)
    ensures Plus(a, f) <= MASK && Minus(a, f) <= MASK
  {}

  lemma StepUndone(h: Halves, sum: bv64)
    requires h.Masked()
    ensures Step(h, sum).Masked() && Unstep(h, sum).Masked()
    ensures Unstep(Step(h, sum), sum) == h
    ensures Step(Unstep(h, sum), sum) == h
  {
    hide Feed, Plus, Minus;
    var s := Step(h, sum);
    var u := Unstep(h, sum);
    MaskedBelow(h.v0, Feed(h.v1, sum));
    MaskedBelow(h.v1, Feed(s.v0, sum));
    MaskedBelow(h.v1, Feed(h.v0, sum));
    MaskedBelow(h.v0, Feed(u.v1, sum));
    AddSub(h.v0, Feed(h.v1, sum));
    AddSub(h.v1, Feed(s.v0, sum));
    SubAdd(h.v1, Feed(h.v0, sum));
    SubAdd(h.v0, Feed(u.v1, sum));
  }

  lemma {:induction false} RoundsUndone(h: Halves, n: nat)
    requires h.Masked()
    ensures Rounds(h, n).Masked() && Unrounds(h, n).Masked()
    ensures Unrounds(Rounds(h, n), n) == h
    ensures Rounds(Unrounds(h, n), n) == h
    decreases n
  {
    hide Step, Unstep, Halves.Masked;
    if n > 0 {
      RoundsUndone(h, n - 1);
      StepUndone(Rounds(h, n - 1), Sum(n));
      StepUndone(h, Sum(n));
      RoundsUndone(Unstep(h, Sum(n)), n - 1);
    }
  }

  lemma TweakTwice(v: bv64, round: bv64)
    requires v <= MASK
    ensures Tweak(Tweak(v, round), round) == v
  {}

  lemma SplitMasked(cell: bv64)
    ensures Split(cell).Masked()
  {}

  lemma JoinSplit(cell: bv64)
    ensures Join(Split(cell)) == cell
  {}

  lemma SplitJoin(h: Halves)
    requires h.Masked()
    ensures Split(Join(h)) == h
  {}

  lemma TweakMasked(v: bv64, round: bv64)
    ensures Tweak(v, round) <= MASK
  {}

  // The cell transform is a bijection for every round tweak.
  lemma CellInverse(cell: bv64, round: bv64)
    ensures InverseCell(Cell(cell, round), round) == cell
    ensures Cell(InverseCell(cell, round), round) == cell
  {
    hide Split, Join, Tweak, Rounds, Unrounds;
    var h := Split(cell);
    SplitMasked(cell);
    JoinSplit(cell);
    TweakMasked(h.v0, round);
    TweakMasked(h.v1, round);
    TweakTwice(h.v0, round);
    TweakTwice(h.v1, round);
    var a := h.(v0 := Tweak(h.v0, round));
    RoundsUndone(a, SUBCELL_ROUNDS);
    var r := Rounds(a, SUBCELL_ROUNDS);
    TweakMasked(r.v1, round);
    TweakTwice(r.v1, round);
    SplitJoin(r.(v1 := Tweak(r.v1, round)));
    var b := h.(v1 := Tweak(h.v1, round));
    RoundsUndone(b, SUBCELL_ROUNDS);
    var u := Unrounds(b, SUBCELL_ROUNDS);
    TweakMasked(u.v0, round);
    TweakTwice(u.v0, round);
    SplitJoin(u.(v0 := Tweak(u.v0, round)));
  }

  // ----- what a cell becomes, on 32-bit words -----

  // The two words after n rounds of wrapping 32-bit arithmetic.
  function Words(low: bv32, high: bv32, n: nat): (bv32, bv32) {
    if n == 0 then (low, high)
    else
      var w := Words(low, high, n - 1);
      var l := Grown(w.0, w.1, Delta(n));
      (l, Grown(w.1, l, Delta(n)))
  }

  // A word after the other fed it.
  function Grown(a: bv32, v: bv32, d: bv32): bv32 {
    a + ((((v << 4) ^ (v >> 5)) + v) ^ d)
  }

  // n times the golden-ratio constant, wrapping.
  function Delta(n: nat): bv32 {
    if n == 0 then 0 else Delta(n - 1) + 0x9E37_79B9
  }

  function Low(x: bv64): bv32 { (x & 0xFFFF_FFFF) as bv32 }

  function High(x: bv64): bv32 { ((x >> 32) & 0xFFFF_FFFF) as bv32 }

  function Concat(low: bv32, high: bv32): bv64 { (high as bv64 << 32) | low as bv64 }

  // A cell is five rounds of 32-bit arithmetic on its two words, the tweak on the low word before and on
  // the high word after. Bits shifted above a word, and a sum that is never masked, do not show.
  lemma CellOnWords(cell: bv64, round: bv64)
    ensures var w := Words(Low(cell) ^ Low(round), High(cell), 5);
            Cell(cell, round) == Concat(w.0, w.1 ^ Low(round))
  {
    hide Split, Join, Tweak, Rounds, Words, Low, High, Concat, Wide, Grown;
    var low, high := Low(cell) ^ Low(round), High(cell);
    SplitWords(cell, round);
    RoundsOnWords(low, high, SUBCELL_ROUNDS);
    var w := Words(low, high, SUBCELL_ROUNDS);
    JoinWords(w.0, w.1, round);
  }

  function Wide(x: bv32): bv64 { x as bv64 }

  lemma SplitWords(cell: bv64, round: bv64)
    ensures Tweak(Split(cell).v0, round) == Wide(Low(cell) ^ Low(round))
    ensures Split(cell).v1 == Wide(High(cell))
  {}

  lemma JoinWords(l: bv32, h: bv32, round: bv64)
    ensures Join(Halves(Wide(l), Tweak(Wide(h), round))) == Concat(l, h ^ Low(round))
  {}

  lemma {:induction false} RoundsOnWords(l: bv32, h: bv32, n: nat)
    ensures var w := Words(l, h, n); Rounds(Halves(Wide(l), Wide(h)), n) == Halves(Wide(w.0), Wide(w.1))
  {
    hide Wide, Step, Sum, Grown;
    if n > 0 {
      RoundsOnWords(l, h, n - 1);
      var w := Words(l, h, n - 1);
      StepOnWords(w.0, w.1, n);
    }
  }

  lemma GrownInTwo(a: bv32, v: bv32, d: bv32)
    ensures Plus32(a, Feed32(v, d)) == Grown(a, v, d)
  {
    hide Plus32, Feed32, Grown;
    FedWord(a, v, d);
    GrownWord(a, v, d);
  }

  lemma FedWord(a: bv32, v: bv32, d: bv32)
    ensures Plus32(a, Feed32(v, d)) == Plus32(a, (((v << 4) ^ (v >> 5)) + v) ^ d)
  {
    hide Plus32;
  }

  lemma GrownWord(a: bv32, v: bv32, d: bv32)
    ensures Plus32(a, (((v << 4) ^ (v >> 5)) + v) ^ d) == Grown(a, v, d)
  {}

  lemma StepOnWords(l: bv32, h: bv32, n: nat)
    ensures var x := Grown(l, h, Delta(n));
            Step(Halves(Wide(l), Wide(h)), Sum(n)) == Halves(Wide(x), Wide(Grown(h, x, Delta(n))))
  {
    hide Wide, Feed, Plus, Feed32, Plus32, Grown, SameLow, Sum, Delta;
    var s, d := Sum(n), Delta(n);
    SumIsDelta(n);
    FeedWide(h, s, d);
    PlusWide(l, Feed(Wide(h), s), Feed32(h, d));
    GrownInTwo(l, h, d);
    var x := Grown(l, h, d);
    GrownInTwo(h, x, d);
    FeedWide(x, s, d);
    PlusWide(h, Feed(Wide(x), s), Feed32(x, d));
  }

  // A sum and its low word.
  predicate SameLow(s: bv64, d: bv32) { s & 0xFFFF_FFFF == d as bv64 }

  lemma {:induction false} SumIsDelta(n: nat)
    ensures SameLow(Sum(n), Delta(n))
  {
    hide SameLow, Advance;
    if n == 0 {
      ZeroLow();
    } else {
      SumIsDelta(n - 1);
      AdvanceLow(Sum(n - 1), Delta(n - 1));
    }
  }

  lemma ZeroLow()
    ensures SameLow(0, 0)
  {}

  lemma AdvanceLow(s: bv64, d: bv32)
    requires SameLow(s, d)
    ensures SameLow(Advance(s), d + 0x9E37_79B9)
  {}

  function Feed32(v: bv32, d: bv32): bv32 { (((v << 4) ^ (v >> 5)) + v) ^ d }

  function Plus32(a: bv32, f: bv32): bv32 { a + f }

  lemma FeedBits(y: bv32, s: bv64, d: bv32)
    requires SameLow(s, d)
    ensures SameLow(((((y as bv64) << 4) ^ ((y as bv64) >> 5)) + (y as bv64)) ^ s, (((y << 4) ^ (y >> 5)) + y) ^ d)
  {}

  lemma FeedCast(y: bv32, s: bv64, d: bv32)
    requires SameLow(s, d)
    ensures SameLow(Feed(y as bv64, s), Feed32(y, d))
  {
    hide SameLow;
    FeedBits(y, s, d);
  }

  lemma FeedWide(y: bv32, s: bv64, d: bv32)
    requires SameLow(s, d)
    ensures SameLow(Feed(Wide(y), s), Feed32(y, d))
  {
    hide SameLow, Feed, Feed32;
    FeedCast(y, s, d);
  }

  predicate Widened(a: bv64, x: bv32) { a == x as bv64 }

  lemma PlusBits(x: bv32, f: bv64, g: bv32)
    requires SameLow(f, g)
    ensures Widened(((x as bv64) + f) & 0xFFFF_FFFF, x + g)
  {}

  lemma PlusCast(x: bv32, f: bv64, g: bv32)
    requires SameLow(f, g)
    ensures Widened(Plus(x as bv64, f), Plus32(x, g))
  {
    hide SameLow, Widened;
    PlusBits(x, f, g);
  }

  lemma PlusWidened(x: bv32, f: bv64, g: bv32)
    requires SameLow(f, g)
    ensures Widened(Plus(Wide(x), f), Plus32(x, g))
  {
    hide SameLow, Widened, Plus, Plus32;
    PlusCast(x, f, g);
  }

  lemma PlusWide(x: bv32, f: bv64, g: bv32)
    requires SameLow(f, g)
    ensures Plus(Wide(x), f) == Wide(Plus32(x, g))
  {
    hide SameLow, Plus, Plus32;
    PlusWidened(x, f, g);
  }
}
