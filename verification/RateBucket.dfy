/** The packet-rate bucket (chat/src/network/server/connection.rs:519-541) in exact arithmetic: credit
    refills at a rate up to a burst, every packet costs one, and an overdrawn packet waits. */
module RateSpec {
  // Seconds since login; refill is when credit was last brought up to date.
  datatype Bucket = Bucket(credit: real, refill: real, throttles: nat)

  function AtLeast(x: real, least: real): (r: real)
    ensures r >= x && r >= least && (r == x || r == least)
  {
    if x < least then least else x
  }

  const LEAST_RATE: real := 0.001
  const LEAST_BURST: real := 1.0

  // The configured rate and burst, as used.
  function Rate(rate: real): (r: real)
    ensures r > 0.0
    ensures r == if rate >= 0.001 then rate else 0.001
  {
    AtLeast(rate, LEAST_RATE)
  }

  function Burst(burst: real): (b: real)
    ensures b >= 1.0 && b >= burst
    ensures b == if burst >= 1.0 then burst else 1.0
  {
    AtLeast(burst, LEAST_BURST)
  }

  // A login starts with the configured burst.
  function Login(burst: real): Bucket {
    Bucket(burst, 0.0, 0)
  }

  function Min(x: real, y: real): real {
    if x < y then x else y
  }

  // What a bucket earns over a time at a rate.
  function Earned(time: real, rate: real): real {
    time * rate
  }

  function Paid(b: Bucket, rate: real, burst: real, now: real): Bucket {
    var credit := Min(b.credit + Earned(now - b.refill, Rate(rate)), Burst(burst)) - 1.0;
    Bucket(credit, now, if credit >= 0.0 then 0 else b.throttles + 1)
  }

  // How long the packet just paid for is held.
  function Wait(b: Bucket, rate: real): real {
    if b.credit >= 0.0 then 0.0 else -b.credit / Rate(rate)
  }

  function HandledAt(b: Bucket, rate: real): real {
    b.refill + Wait(b, rate)
  }

  // The bucket after packets arriving at these times.
  function After(rate: real, burst: real, arrivals: seq<real>): Bucket {
    if arrivals == [] then Login(burst)
    else
      var n := |arrivals| - 1;
      Paid(After(rate, burst, arrivals[..n]), rate, burst, arrivals[n])
  }

  // No packet is read before the one ahead of it has been held and handled.
  ghost predicate Served(rate: real, burst: real, arrivals: seq<real>) {
    forall i :: 0 <= i < |arrivals| ==>
      arrivals[i] >= if i == 0 then 0.0 else HandledAt(After(rate, burst, arrivals[..i]), rate)
  }

  lemma ServedPrefix(rate: real, burst: real, arrivals: seq<real>, n: nat)
    requires Served(rate, burst, arrivals) && n <= |arrivals|
    ensures Served(rate, burst, arrivals[..n])
  {
    forall i | 0 <= i < n
      ensures arrivals[..n][i] >= if i == 0 then 0.0 else HandledAt(After(rate, burst, arrivals[..n][..i]), rate)
    {
      assert arrivals[..n][..i] == arrivals[..i];
    }
  }

  // Holding a packet for its wait refills an overdrawn bucket to exactly zero.
  lemma WaitRefills(b: Bucket, rate: real)
    ensures Wait(b, rate) >= 0.0
    ensures b.credit < 0.0 ==> b.credit + Earned(Wait(b, rate), Rate(rate)) == 0.0
  {
    var r := Rate(rate);
    if b.credit < 0.0 {
      DivMul(-b.credit, r);
    }
  }

  lemma DivMul(x: real, r: real)
    requires r > 0.0
    ensures x / r * r == x
    ensures x > 0.0 ==> x / r > 0.0
  {}

  lemma EarnedGrows(x: real, y: real, rate: real)
    requires x <= y && rate > 0.0
    ensures Earned(x, rate) <= Earned(y, rate)
  {}

  lemma EarnedIs(time: real, rate: real)
    ensures Earned(time, rate) == rate * time
  {}

  lemma EarnedNothing(rate: real)
    ensures Earned(0.0, rate) == 0.0
  {}

  lemma EarnedAdds(x: real, y: real, rate: real)
    ensures Earned(x + y, rate) == Earned(x, rate) + Earned(y, rate)
  {}

  lemma {:induction false} CreditStaysNear(rate: real, burst: real, arrivals: seq<real>)
    requires Served(rate, burst, arrivals) && burst >= 0.0
    ensures After(rate, burst, arrivals).credit >= if arrivals == [] then 0.0 else -1.0
  {
    hide Earned, Rate, Burst;
    if arrivals != [] {
      var n := |arrivals| - 1;
      ServedPrefix(rate, burst, arrivals, n);
      CreditStaysNear(rate, burst, arrivals[..n]);
      var b := After(rate, burst, arrivals[..n]);
      WaitRefills(b, rate);
      RefillIs(rate, burst, arrivals[..n]);
      EarnedGrows(0.0, Wait(b, rate), Rate(rate));
      EarnedGrows(Wait(b, rate), arrivals[n] - b.refill, Rate(rate));
      EarnedNothing(Rate(rate));
    }
  }

  lemma RefillIs(rate: real, burst: real, arrivals: seq<real>)
    ensures After(rate, burst, arrivals).refill == if arrivals == [] then 0.0 else arrivals[|arrivals| - 1]
  {}

  // With waits served, credit never falls below minus one, and every wait is at most 1/r.
  lemma WaitsAreBounded(rate: real, burst: real, arrivals: seq<real>, n: nat)
    requires Served(rate, burst, arrivals) && burst >= 0.0 && n <= |arrivals|
    ensures After(rate, burst, arrivals[..n]).credit >= -1.0
    ensures 0.0 <= Wait(After(rate, burst, arrivals[..n]), rate) <= 1.0 / Rate(rate)
  {
    ServedPrefix(rate, burst, arrivals, n);
    CreditStaysNear(rate, burst, arrivals[..n]);
    var b := After(rate, burst, arrivals[..n]);
    WaitRefills(b, rate);
    if b.credit < 0.0 { DivMonotone(-b.credit, 1.0, Rate(rate)); }
  }

  lemma DivMonotone(x: real, y: real, r: real)
    requires x <= y && r > 0.0
    ensures x / r <= y / r
  {}

  // The bound needs a configured burst that is not negative: login copies it before it is clamped.
  lemma BoundedIff(rate: real, burst: real)
    ensures burst >= 0.0 <==>
            forall arrivals :: Served(rate, burst, arrivals) ==> After(rate, burst, arrivals).credit >= -1.0
  {
    if burst >= 0.0 {
      forall arrivals | Served(rate, burst, arrivals) ensures After(rate, burst, arrivals).credit >= -1.0 {
        CreditStaysNear(rate, burst, arrivals);
      }
    } else {
      var one := [0.0];
      assert one[..0] == [];
      assert Served(rate, burst, one) && After(rate, burst, one).credit == burst - 1.0;
    }
  }

  lemma {:induction false} CreditPays(rate: real, burst: real, arrivals: seq<real>)
    requires Served(rate, burst, arrivals)
    ensures var b := After(rate, burst, arrivals);
            b.credit <= Burst(burst) + Earned(b.refill, Rate(rate)) - |arrivals| as real
  {
    hide Earned, Rate, Burst;
    EarnedNothing(Rate(rate));
    if arrivals != [] {
      var n := |arrivals| - 1;
      ServedPrefix(rate, burst, arrivals, n);
      CreditPays(rate, burst, arrivals[..n]);
      var refill := After(rate, burst, arrivals[..n]).refill;
      EarnedAdds(refill, arrivals[n] - refill, Rate(rate));
    }
  }

  // At most b + r*t packets have been handled by any time t after login.
  lemma HandledBounded(rate: real, burst: real, arrivals: seq<real>, n: nat, t: real)
    requires Served(rate, burst, arrivals) && 0 < n <= |arrivals|
    requires HandledAt(After(rate, burst, arrivals[..n]), rate) <= t
    ensures n as real <= Burst(burst) + Earned(t, Rate(rate))
  {
    hide Earned, Rate, Burst, After, Served;
    var b := After(rate, burst, arrivals[..n]);
    ServedPrefix(rate, burst, arrivals, n);
    CreditPays(rate, burst, arrivals[..n]);
    WaitRefills(b, rate);
    EarnedGrows(HandledAt(b, rate), t, Rate(rate));
    EarnedAdds(b.refill, Wait(b, rate), Rate(rate));
    EarnedGrows(0.0, Wait(b, rate), Rate(rate));
    EarnedNothing(Rate(rate));
  }

  // ----- who waits -----

  // What is left when the bucket was full at packet i and has since paid for it and all that followed.
  function Left(rate: real, burst: real, arrivals: seq<real>, i: nat): real
    requires i < |arrivals|
  {
    Burst(burst) + Earned(arrivals[|arrivals| - 1] - arrivals[i], Rate(rate)) - (|arrivals| - i) as real
  }

  // And when it has never been full since login.
  function LeftOfLogin(rate: real, burst: real, arrivals: seq<real>): real
    requires arrivals != []
  {
    burst + Earned(arrivals[|arrivals| - 1], Rate(rate)) - |arrivals| as real
  }

  lemma LeftStep(rate: real, burst: real, arrivals: seq<real>, i: nat)
    requires i + 1 < |arrivals|
    ensures var n := |arrivals| - 1;
            Left(rate, burst, arrivals, i)
            == Left(rate, burst, arrivals[..n], i) + Earned(arrivals[n] - arrivals[n - 1], Rate(rate)) - 1.0
  {
    hide Earned, Rate, Burst;
    var n := |arrivals| - 1;
    EarnedAdds(arrivals[n - 1] - arrivals[i], arrivals[n] - arrivals[n - 1], Rate(rate));
    assert arrivals[n - 1] - arrivals[i] + (arrivals[n] - arrivals[n - 1]) == arrivals[n] - arrivals[i];
  }

  lemma LoginStep(rate: real, burst: real, arrivals: seq<real>)
    requires |arrivals| > 1
    ensures var n := |arrivals| - 1;
            LeftOfLogin(rate, burst, arrivals)
            == LeftOfLogin(rate, burst, arrivals[..n]) + Earned(arrivals[n] - arrivals[n - 1], Rate(rate)) - 1.0
  {
    hide Earned, Rate, Burst;
    var n := |arrivals| - 1;
    EarnedAdds(arrivals[n - 1], arrivals[n] - arrivals[n - 1], Rate(rate));
    assert arrivals[n - 1] + (arrivals[n] - arrivals[n - 1]) == arrivals[n];
  }

  lemma LeftLast(rate: real, burst: real, arrivals: seq<real>)
    requires arrivals != []
    ensures Left(rate, burst, arrivals, |arrivals| - 1) == Burst(burst) - 1.0
  {
    hide Earned, Rate, Burst;
    EarnedNothing(Rate(rate));
  }

  lemma CreditStep(rate: real, burst: real, arrivals: seq<real>)
    requires arrivals != []
    ensures var n := |arrivals| - 1;
            var last := if n == 0 then 0.0 else arrivals[n - 1];
            After(rate, burst, arrivals).credit
            == Min(After(rate, burst, arrivals[..n]).credit + Earned(arrivals[n] - last, Rate(rate)), Burst(burst)) - 1.0
  {
    hide Earned, Rate, Burst, Min;
    RefillIs(rate, burst, arrivals[..|arrivals| - 1]);
  }

  // The credit is the least of these: it is at most each of them,
  lemma {:induction false} CreditAtMost(rate: real, burst: real, arrivals: seq<real>, i: nat)
    requires i < |arrivals|
    ensures After(rate, burst, arrivals).credit <= Left(rate, burst, arrivals, i)
    ensures After(rate, burst, arrivals).credit <= LeftOfLogin(rate, burst, arrivals)
  {
    hide Earned, Rate, Burst, After, Left, LeftOfLogin;
    var n := |arrivals| - 1;
    CreditStep(rate, burst, arrivals);
    LeftLast(rate, burst, arrivals);
    if n == 0 {
      FirstLeft(rate, burst, arrivals);
    } else {
      LoginStep(rate, burst, arrivals);
      if i < n {
        CreditAtMost(rate, burst, arrivals[..n], i);
        LeftStep(rate, burst, arrivals, i);
      } else {
        CreditAtMost(rate, burst, arrivals[..n], 0);
      }
    }
  }

  lemma FirstLeft(rate: real, burst: real, arrivals: seq<real>)
    requires |arrivals| == 1
    ensures After(rate, burst, arrivals[..0]).credit == burst
    ensures LeftOfLogin(rate, burst, arrivals) == burst + Earned(arrivals[0] - 0.0, Rate(rate)) - 1.0
  {
    hide Earned, Rate, Burst;
    assert arrivals[0] - 0.0 == arrivals[0];
  }

  // and one of them.
  lemma {:induction false} CreditAttains(rate: real, burst: real, arrivals: seq<real>)
    requires arrivals != []
    ensures After(rate, burst, arrivals).credit == LeftOfLogin(rate, burst, arrivals)
            || exists i :: 0 <= i < |arrivals| && After(rate, burst, arrivals).credit == Left(rate, burst, arrivals, i)
  {
    hide Earned, Rate, Burst, After, Left, LeftOfLogin;
    var n := |arrivals| - 1;
    CreditStep(rate, burst, arrivals);
    LeftLast(rate, burst, arrivals);
    if n == 0 {
      FirstLeft(rate, burst, arrivals);
    } else {
      LoginStep(rate, burst, arrivals);
      CreditAttains(rate, burst, arrivals[..n]);
      if i :| 0 <= i < n && After(rate, burst, arrivals[..n]).credit == Left(rate, burst, arrivals[..n], i) {
        LeftStep(rate, burst, arrivals, i);
      }
    }
  }

  // Packets arrive after login, in order.
  ghost predicate Ordered(arrivals: seq<real>) {
    forall i :: 0 <= i < |arrivals| ==> arrivals[i] >= 0.0 && (i > 0 ==> arrivals[i - 1] <= arrivals[i])
  }

  // A packet waits exactly when, from some packet on, more have come than a full bucket and what it has
  // earned since could pay for.
  lemma WaitsIff(rate: real, burst: real, arrivals: seq<real>)
    requires rate >= 0.001 && burst >= 1.0 && arrivals != [] && Ordered(arrivals)
    ensures var n := |arrivals|;
            Wait(After(rate, burst, arrivals), rate) > 0.0
            <==> exists i :: 0 <= i < n && (n - i) as real > burst + Earned(arrivals[n - 1] - arrivals[i], rate)
  {
    hide Earned, After, Wait;
    var n := |arrivals|;
    WaitPositive(After(rate, burst, arrivals), rate);
    CreditAttains(rate, burst, arrivals);
    LoginIsMore(rate, burst, arrivals);
    CreditAtMost(rate, burst, arrivals, 0);
    var credit, full := After(rate, burst, arrivals).credit, 0;
    if credit != LeftOfLogin(rate, burst, arrivals) {
      full :| 0 <= full < n && credit == Left(rate, burst, arrivals, full);
    }
    assert credit == Left(rate, burst, arrivals, full);
    if credit < 0.0 {
      assert (n - full) as real > burst + Earned(arrivals[n - 1] - arrivals[full], rate);
    } else {
      forall i | 0 <= i < n ensures (n - i) as real <= burst + Earned(arrivals[n - 1] - arrivals[i], rate) {
        CreditAtMost(rate, burst, arrivals, i);
      }
    }
  }

  lemma LoginIsMore(rate: real, burst: real, arrivals: seq<real>)
    requires burst >= 1.0 && arrivals != [] && Ordered(arrivals)
    ensures Left(rate, burst, arrivals, 0) <= LeftOfLogin(rate, burst, arrivals)
  {
    hide Earned, Rate;
    var last := arrivals[|arrivals| - 1];
    EarnedGrows(last - arrivals[0], last, Rate(rate));
  }

  // The first packets after login, as many as the burst, never wait.
  lemma BurstIsFree(rate: real, burst: real, arrivals: seq<real>)
    requires rate >= 0.001 && burst >= 1.0 && arrivals != [] && Ordered(arrivals)
    requires |arrivals| as real <= burst
    ensures Wait(After(rate, burst, arrivals), rate) == 0.0
  {
    hide Earned, After;
    var n := |arrivals|;
    WaitsIff(rate, burst, arrivals);
    if i :| 0 <= i < n && (n - i) as real > burst + Earned(arrivals[n - 1] - arrivals[i], rate) {
      OrderedFrom(arrivals, i, n - 1);
      EarnedGrows(0.0, arrivals[n - 1] - arrivals[i], rate);
      EarnedNothing(rate);
    }
    WaitRefills(After(rate, burst, arrivals), rate);
  }

  lemma {:induction false} OrderedFrom(arrivals: seq<real>, i: nat, j: nat)
    requires Ordered(arrivals) && i <= j < |arrivals|
    ensures arrivals[i] <= arrivals[j]
    decreases j
  {
    if i < j { OrderedFrom(arrivals, i, j - 1); }
  }

  // throttles counts the latest packets that had to wait without one in between that did not.
  lemma {:induction false} ThrottlesCount(rate: real, burst: real, arrivals: seq<real>)
    ensures var k := After(rate, burst, arrivals).throttles;
            && k <= |arrivals|
            && (forall i :: |arrivals| - k < i <= |arrivals| ==> Wait(After(rate, burst, arrivals[..i]), rate) > 0.0)
            && (k < |arrivals| ==> Wait(After(rate, burst, arrivals[..|arrivals| - k]), rate) == 0.0)
  {
    if arrivals != [] {
      var n := |arrivals| - 1;
      var earlier := arrivals[..n];
      ThrottlesCount(rate, burst, earlier);
      forall i | 0 <= i <= n ensures earlier[..i] == arrivals[..i] {}
      assert arrivals[..|arrivals|] == arrivals;
      WaitPositive(After(rate, burst, arrivals), rate);
    }
  }

  lemma WaitPositive(b: Bucket, rate: real)
    ensures Wait(b, rate) > 0.0 <==> b.credit < 0.0
  {
    if b.credit < 0.0 { DivMul(-b.credit, Rate(rate)); }
  }
}

module Rates {
  import opened RateSpec

  class Connection {
    const authenticated: bool
    var credit: real
    var refill: real
    var throttles: nat

    function View(): Bucket
      reads this
    {
      Bucket(credit, refill, throttles)
    }

    constructor (authenticated: bool, burst: real)
      ensures this.authenticated == authenticated && View() == Login(burst)
    {
      this.authenticated := authenticated;
      credit := burst;
      refill := 0.0;
      throttles := 0;
    }

    // Pays for one packet; only an authenticated connection is charged.
    method TakeCredit(rate: real, burst: real, now: real) returns (wait: real)
      modifies this
      ensures authenticated ==> View() == Paid(old(View()), rate, burst, now) && wait == Wait(View(), rate)
      ensures !authenticated ==> View() == old(View()) && wait == 0.0
    {
      if !authenticated { return 0.0; }
      var r := AtLeast(rate, LEAST_RATE);
      var b := AtLeast(burst, LEAST_BURST);
      var filled := credit + Earned(now - refill, r);
      credit := Min(filled, b) - 1.0;
      refill := now;
      if credit >= 0.0 {
        throttles := 0;
        return 0.0;
      }
      throttles := throttles + 1;
      wait := -credit / r;
    }
  }
}
