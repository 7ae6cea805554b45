/** The grid as one large little-endian integer (core/src/grid.rs, increment). */
module Limbs {
  import opened Bytes
  import Rows

  // The integer held by a run of cells, least significant cell first.
  function Value(g: seq<bv64>): nat {
    if |g| == 0 then 0 else U64(g[0]) + TWO_64 * Value(g[1..])
  }

  // The k low limbs of n.
  function LimbsOf(n: nat, k: nat): (g: seq<bv64>)
    ensures |g| == k
    decreases k
  {
    if k == 0 then [] else [Cell(n)] + LimbsOf(n / TWO_64, k - 1)
  }

  // The grid holding Value(g) + amount, reduced modulo 2^(64 * |g|).
  function Increment(g: seq<bv64>, amount: nat): (r: seq<bv64>)
    ensures |r| == |g|
  {
    LimbsOf(Value(g) + amount, |g|)
  }

  lemma {:induction false} LimbsOfValue(g: seq<bv64>)
    ensures LimbsOf(Value(g), |g|) == g
  {
    hide U64, Cell;
    if |g| > 0 {
      CellOfU64(g[0]);
      U64OfCell(U64(g[0]));
      LowLimb(U64(g[0]), Value(g[1..]));
      LimbsOfValue(g[1..]);
      CellMod(Value(g));
    }
  }

  lemma LowLimb(low: nat, high: nat)
    requires low < TWO_64
    ensures (low + TWO_64 * high) % TWO_64 == low && (low + TWO_64 * high) / TWO_64 == high
  {}

  lemma CellMod(n: nat)
    ensures Cell(n) == Cell(n % TWO_64)
  {
    hide Pack, BeBytes;
  }

  lemma {:induction false} ValueOfLimbs(n: nat, k: nat)
    ensures Value(LimbsOf(n, k)) == n % Power(TWO_64, k)
    decreases k
  {
    hide U64, Cell;
    if k > 0 {
      U64OfCell(n);
      ValueOfLimbs(n / TWO_64, k - 1);
      assert LimbsOf(n, k)[1..] == LimbsOf(n / TWO_64, k - 1);
      ModSplit(n, Power(TWO_64, k - 1));
    }
  }

  lemma ModSplit(n: nat, m: nat)
    requires m > 0
    ensures n % (TWO_64 * m) == n % TWO_64 + TWO_64 * (n / TWO_64 % m)
  {
    var q, r := n / TWO_64, n % TWO_64;
    var e, f := q / m, q % m;
    assert n == TWO_64 * q + r;
    assert q == e * m + f;
    assert n == e * (TWO_64 * m) + (TWO_64 * f + r);
    assert TWO_64 * f + r < TWO_64 * m;
    Rows.Divided(n, TWO_64 * m, e, TWO_64 * f + r);
  }

  lemma {:induction false} LimbsMod(n: nat, k: nat)
    ensures LimbsOf(n, k) == LimbsOf(n % Power(TWO_64, k), k)
  {
    hide Cell;
    ValueOfLimbs(n, k);
    LimbsOfValue(LimbsOf(n, k));
  }

  // The first cell is the least significant: every cell before a run weighs the run by 2^64.
  lemma {:induction false} ValueSplit(a: seq<bv64>, b: seq<bv64>)
    ensures Value(a + b) == Value(a) + Power(TWO_64, |a|) * Value(b)
  {
    hide U64;
    if a == [] {
      assert a + b == b;
    } else {
      assert (a + b)[0] == a[0] && (a + b)[1..] == a[1..] + b;
      ValueSplit(a[1..], b);
      Distribute(TWO_64, Value(a[1..]), Power(TWO_64, |a| - 1), Value(b));
    }
  }

  lemma Distribute(t: nat, x: nat, p: nat, y: nat)
    ensures t * (x + p * y) == t * x + (t * p) * y
  {}

  lemma ValueOne(c: bv64)
    ensures Value([c]) == U64(c)
  {
    hide U64;
    assert [c][1..] == [];
  }

  // ----- what an increment does -----

  // Addition modulo 2^(64 * |g|), and the only grid with that value.
  lemma IncrementAdds(g: seq<bv64>, amount: nat)
    ensures Value(Increment(g, amount)) == (Value(g) + amount) % Power(TWO_64, |g|)
    ensures forall r :: |r| == |g| && Value(r) == Value(Increment(g, amount)) ==> r == Increment(g, amount)
  {
    hide Value, LimbsOf;
    ValueOfLimbs(Value(g) + amount, |g|);
    forall r: seq<bv64> | |r| == |g| && Value(r) == Value(Increment(g, amount)) ensures r == Increment(g, amount) {
      LimbsOfValue(r);
      LimbsOfValue(Increment(g, amount));
    }
  }

  lemma IncrementTwice(g: seq<bv64>, a: nat, b: nat)
    ensures Increment(Increment(g, a), b) == Increment(g, a + b)
  {
    hide Value, LimbsOf;
    var p := Power(TWO_64, |g|);
    IncrementAdds(g, a);
    LimbsMod((Value(g) + a) % p + b, |g|);
    LimbsMod(Value(g) + (a + b), |g|);
    ModAdd(Value(g) + a, b, p);
  }

  lemma ModAdd(x: nat, b: nat, p: nat)
    requires p > 0
    ensures (x % p + b) % p == (x + b) % p
  {
    var q := x / p;
    assert x + b == q * p + (x % p + b);
    var e := (x % p + b) / p;
    assert x + b == (q + e) * p + (x % p + b) % p;
    Rows.Divided(x + b, p, q + e, (x % p + b) % p);
  }

  // Two different u64 amounts give different grids, even where the whole grid wraps.
  lemma IncrementInjective(g: seq<bv64>, a: nat, b: nat)
    requires |g| > 0 && a < TWO_64 && b < TWO_64
    requires Increment(g, a) == Increment(g, b)
    ensures a == b
  {
    hide Value, U64, Cell;
    var v := Value(g);
    assert LimbsOf(v + a, |g|)[0] == Cell(v + a);
    assert LimbsOf(v + b, |g|)[0] == Cell(v + b);
    U64OfCell(v + a);
    U64OfCell(v + b);
  }

  // ----- the carry loop -----

  // What the loop leaves from one limb on.
  function AddCarry(g: seq<bv64>, carry: nat): (r: seq<bv64>)
    ensures |r| == |g|
    decreases |g|
  {
    if |g| == 0 then []
    else [Cell(U64(g[0]) + carry)] + AddCarry(g[1..], (U64(g[0]) + carry) / TWO_64)
  }

  lemma {:induction false} AddCarryIsIncrement(g: seq<bv64>, carry: nat)
    ensures AddCarry(g, carry) == LimbsOf(Value(g) + carry, |g|)
    decreases |g|
  {
    hide U64, Cell;
    if |g| > 0 {
      var s := U64(g[0]) + carry;
      var v := Value(g[1..]);
      AddCarryIsIncrement(g[1..], s / TWO_64);
      CellMod(s);
      CellMod(s + TWO_64 * v);
      CarryOut(s, v);
    }
  }

  lemma CarryOut(s: nat, v: nat)
    ensures (s + TWO_64 * v) % TWO_64 == s % TWO_64
    ensures (s + TWO_64 * v) / TWO_64 == v + s / TWO_64
  {}

  lemma {:induction false} AddNothing(g: seq<bv64>)
    ensures AddCarry(g, 0) == g
  {
    hide U64, Cell;
    if |g| > 0 {
      CellOfU64(g[0]);
      AddNothing(g[1..]);
    }
  }

  // overflowing_add on one limb
  method OverflowingAdd(cell: bv64, carry: nat) returns (result: bv64, overflow: bool)
    requires carry < TWO_64
    ensures result == Cell(U64(cell) + carry)
    ensures overflow <==> U64(cell) + carry >= TWO_64
    ensures (U64(cell) + carry) / TWO_64 == if overflow then 1 else 0
  {
    hide U64, Cell;
    CellOfU64(cell);
    var sum := U64(cell) + carry;
    result := Cell(sum);
    overflow := sum >= TWO_64;
  }

  // One step of the loop: limb i is settled and the carry moves on.
  lemma CarryStep(done: seq<bv64>, start: seq<bv64>, i: nat, carry: nat, limb: bv64, next: nat)
    requires |done| == i < |start|
    requires limb == Cell(U64(start[i]) + carry) && next == (U64(start[i]) + carry) / TWO_64
    ensures done + AddCarry(start[i..], carry) == (done + [limb]) + AddCarry(start[i + 1..], next)
  {
    hide U64, Cell;
    assert start[i..][0] == start[i] && start[i..][1..] == start[i + 1..];
    assert AddCarry(start[i..], carry) == [limb] + AddCarry(start[i + 1..], next);
  }

  lemma SameAfter(now: seq<bv64>, start: seq<bv64>, i: nat)
    requires |now| == |start| && i <= |now| && forall k :: i <= k < |now| ==> now[k] == start[k]
    ensures now == now[..i] + start[i..]
  {}

  // The constant-time build always walks the whole grid.
  method IncrementFullScan(g: array<bv64>, amount: nat)
    requires amount < TWO_64
    modifies g
    ensures g[..] == Increment(old(g[..]), amount)
  {
    hide U64, Cell, Value, LimbsOf, AddCarry;
    ghost var start := g[..];
    AddCarryIsIncrement(start, amount);
    var carry: nat := amount;
    assert start[0..] == start;
    for i := 0 to g.Length
      invariant carry < TWO_64
      invariant forall k :: i <= k < g.Length ==> g[k] == start[k]
      invariant Increment(start, amount) == g[..i] + AddCarry(start[i..], carry)
    {
      ghost var before := g[..i];
      var result, overflow := OverflowingAdd(g[i], carry);
      CarryStep(before, start, i, carry, result, if overflow then 1 else 0);
      g[i] := result;
      carry := if overflow then 1 else 0;
      assert g[..i + 1] == before + [result];
    }
  }

  // The other builds stop as soon as nothing is carried.
  method IncrementEarlyExit(g: array<bv64>, amount: nat)
    requires amount < TWO_64
    modifies g
    ensures g[..] == Increment(old(g[..]), amount)
  {
    hide U64, Cell, Value, LimbsOf, AddCarry;
    ghost var start := g[..];
    AddCarryIsIncrement(start, amount);
    var carry: nat := amount;
    assert start[0..] == start;
    for i := 0 to g.Length
      invariant carry < TWO_64
      invariant forall k :: i <= k < g.Length ==> g[k] == start[k]
      invariant Increment(start, amount) == g[..i] + AddCarry(start[i..], carry)
    {
      ghost var before := g[..i];
      var result, overflow := OverflowingAdd(g[i], carry);
      CarryStep(before, start, i, carry, result, if overflow then 1 else 0);
      g[i] := result;
      assert g[..i + 1] == before + [result];
      if !overflow {
        AddNothing(start[i + 1..]);
        SameAfter(g[..], start, i + 1);
        return;
      }
      carry := 1;
    }
  }
}
