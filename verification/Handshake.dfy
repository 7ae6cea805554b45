/** The handshake budget (chat/src/network/server/handshake.rs): one accept loop takes slots while any
    number of tasks release them, each atomic access being a step of its own. */
module HandshakeSpec {
  type Ip = nat

  const MAX_HANDSHAKES_PER_IP: nat := 8

  // Where the accept loop is inside a reservation.
  datatype Phase =
    | Idle
    | Checked(ip: Ip)
    | Counted(ip: Ip)

  // The two shared counters, the slots held, and the drops under way: released ones have left the global
  // count but not the map, emptied ones saw their address reach zero and are about to remove it.
  datatype State = State(
    total: int,
    perIp: map<Ip, nat>,
    held: multiset<Ip>,
    phase: Phase,
    released: multiset<Ip>,
    emptied: multiset<Ip>)

  datatype Step =
    | Check(peer: Ip, budget: nat)
    | Count
    | Take
    | Release(slot: Ip)
    | Uncount(slot: Ip)
    | Tidy(slot: Ip)

  // The budget is read again for every reservation; limit bounds what is configured.
  predicate Enabled(s: State, step: Step, limit: nat) {
    match step
    case Check(_, budget) => s.phase.Idle? && budget <= limit
    case Count => s.phase.Checked?
    case Take => s.phase.Counted?
    case Release(slot) => slot in s.held
    case Uncount(slot) => slot in s.released
    case Tidy(slot) => slot in s.emptied
  }

  function Slots(s: State, ip: Ip): nat {
    if ip in s.perIp then s.perIp[ip] else 0
  }

  function Next(s: State, step: Step, limit: nat): State
    requires Enabled(s, step, limit)
  {
    match step
    case Check(peer, budget) => if s.total >= budget then s else s.(phase := Checked(peer))
    case Count =>
      var ip := s.phase.ip;
      var slots := Slots(s, ip);
      if slots >= MAX_HANDSHAKES_PER_IP then s.(perIp := s.perIp[ip := slots], phase := Idle)
      else s.(perIp := s.perIp[ip := slots + 1], phase := Counted(ip))
    case Take =>
      s.(total := s.total + 1, held := s.held + multiset{s.phase.ip}, phase := Idle)
    case Release(slot) =>
      s.(total := s.total - 1, held := s.held - multiset{slot}, released := s.released + multiset{slot})
    case Uncount(slot) =>
      var rest := s.(released := s.released - multiset{slot});
      if slot !in s.perIp then rest
      else
        var slots := if s.perIp[slot] == 0 then 0 else s.perIp[slot] - 1;
        rest.(perIp := s.perIp[slot := slots], emptied := s.emptied + (if slots == 0 then multiset{slot} else multiset{}))
    case Tidy(slot) =>
      s.(perIp := if slot in s.perIp && s.perIp[slot] == 0 then s.perIp - {slot} else s.perIp,
         emptied := s.emptied - multiset{slot})
  }

  const Start := State(0, map[], multiset{}, Idle, multiset{}, multiset{})

  // What an address still counts for: slots held, drops under way and a reservation under way.
  function Owed(s: State, ip: Ip): nat {
    s.held[ip] + s.released[ip] + (if s.phase == Counted(ip) then 1 else 0)
  }

  ghost predicate Inv(s: State, limit: nat) {
    && s.total == |s.held|
    && s.total + (if s.phase.Idle? then 0 else 1) <= limit
    && forall ip :: AddressInv(s, ip)
  }

  predicate AddressInv(s: State, ip: Ip) {
    && Slots(s, ip) == Owed(s, ip)
    && Slots(s, ip) <= MAX_HANDSHAKES_PER_IP
    && (ip in s.perIp && s.perIp[ip] == 0 ==> ip in s.emptied)
  }

  lemma AddressKeeps(s: State, step: Step, limit: nat, ip: Ip)
    requires AddressInv(s, ip) && Enabled(s, step, limit)
    requires step.Uncount? ==> Slots(s, step.slot) > 0
    ensures AddressInv(Next(s, step, limit), ip)
  {}

  lemma TotalKeeps(s: State, step: Step, limit: nat)
    requires Inv(s, limit) && Enabled(s, step, limit)
    ensures var t := Next(s, step, limit);
            t.total == |t.held| && t.total + (if t.phase.Idle? then 0 else 1) <= limit
  {
    hide AddressInv;
  }

  lemma StepKeeps(s: State, step: Step, limit: nat)
    requires Inv(s, limit) && Enabled(s, step, limit)
    ensures Inv(Next(s, step, limit), limit)
  {
    hide Next;
    TotalKeeps(s, step, limit);
    if step.Uncount? { assert AddressInv(s, step.slot); }
    hide AddressInv, Slots;
    forall ip ensures AddressInv(Next(s, step, limit), ip) {
      assert AddressInv(s, ip);
      AddressKeeps(s, step, limit, ip);
    }
  }

  ghost predicate Run(states: seq<State>, steps: seq<Step>, limit: nat) {
    && |states| == |steps| + 1 && states[0] == Start
    && forall i :: 0 <= i < |steps| ==> Enabled(states[i], steps[i], limit) && states[i + 1] == Next(states[i], steps[i], limit)
  }

  lemma {:induction false} RunInv(states: seq<State>, steps: seq<Step>, limit: nat, i: nat)
    requires Run(states, steps, limit) && i < |states|
    ensures Inv(states[i], limit)
  {
    hide Next, Inv;
    if i == 0 {
      StartInv(limit);
    } else {
      RunInv(states, steps, limit, i - 1);
      StepKeeps(states[i - 1], steps[i - 1], limit);
    }
  }

  lemma StartInv(limit: nat)
    ensures Inv(Start, limit)
  {}

  // ----- what follows -----

  ghost function Sum(m: map<Ip, nat>): nat {
    if m == map[] then 0
    else
      var ip := Some(m);
      m[ip] + Sum(m - {ip})
  }

  ghost function Some(m: map<Ip, nat>): (ip: Ip)
    requires m != map[]
    ensures ip in m
  {
    var ip :| ip in m;
    ip
  }

  lemma {:induction false} SumIsSize(m: map<Ip, nat>, all: multiset<Ip>)
    requires forall ip :: (if ip in m then m[ip] else 0) == all[ip]
    ensures Sum(m) == |all|
  {
    if m == map[] {
      assert all == multiset{};
    } else {
      var ip := Some(m);
      SumIsSize(m - {ip}, all[ip := 0]);
    }
  }

  // In every reachable state the global count neither passes the limit nor underflows, and never exceeds
  // the sum of the per-address counts, which stay within their own limit.
  lemma BudgetHolds(states: seq<State>, steps: seq<Step>, limit: nat, i: nat)
    requires Run(states, steps, limit) && i < |states|
    ensures 0 <= states[i].total <= limit
    ensures states[i].total <= Sum(states[i].perIp)
    ensures forall ip :: ip in states[i].perIp ==> states[i].perIp[ip] <= 8
  {
    RunInv(states, steps, limit, i);
    var s := states[i];
    var owed := s.held + s.released + (if s.phase.Counted? then multiset{s.phase.ip} else multiset{});
    forall ip ensures (if ip in s.perIp then s.perIp[ip] else 0) == owed[ip] <= MAX_HANDSHAKES_PER_IP {
      assert AddressInv(s, ip);
    }
    SumIsSize(s.perIp, owed);
  }

  // No decrement, global or per address, ever starts from zero, and the address is always there.
  lemma NoUnderflow(states: seq<State>, steps: seq<Step>, limit: nat, i: nat)
    requires Run(states, steps, limit) && i < |steps|
    ensures steps[i].Release? ==> states[i].total > 0
    ensures steps[i].Uncount? ==> Slots(states[i], steps[i].slot) > 0
  {
    RunInv(states, steps, limit, i);
    var s := states[i];
    if steps[i].Uncount? { assert AddressInv(s, steps[i].slot); }
    if steps[i].Release? { assert s.held == s.held - multiset{steps[i].slot} + multiset{steps[i].slot}; }
  }

  // An address at zero is always about to be removed; so once nothing is held or under way, nothing is left.
  lemma NothingLeft(states: seq<State>, steps: seq<Step>, limit: nat, i: nat)
    requires Run(states, steps, limit) && i < |states|
    requires var s := states[i];
             s.held == multiset{} && s.released == multiset{} && s.emptied == multiset{} && s.phase.Idle?
    ensures states[i].total == 0 && states[i].perIp == map[]
  {
    RunInv(states, steps, limit, i);
    var s := states[i];
    forall ip ensures ip !in s.perIp {
      assert AddressInv(s, ip);
    }
  }
}

/** The same budget as the server calls it: a whole reservation or release at a time. */
module Handshakes {
  import opened HandshakeSpec

  // A reservation and a drop, with no other step in between.
  function Reserved(s: State, ip: Ip, budget: nat): State
    requires s.phase.Idle?
  {
    var checked := Next(s, Check(ip, budget), budget);
    if checked.phase.Idle? then checked
    else
      var counted := Next(checked, Count, budget);
      if counted.phase.Idle? then counted else Next(counted, Take, budget)
  }

  function Dropped(s: State, ip: Ip): State
    requires ip in s.held
  {
    var uncounted := Next(Next(s, Release(ip), 0), Uncount(ip), 0);
    if ip in uncounted.emptied then Next(uncounted, Tidy(ip), 0) else uncounted
  }

  lemma ReservedIs(s: State, ip: Ip, budget: nat)
    requires s.phase.Idle?
    ensures Reserved(s, ip, budget)
            == if s.total >= budget then s
               else if Slots(s, ip) >= MAX_HANDSHAKES_PER_IP then s
               else s.(total := s.total + 1, perIp := s.perIp[ip := Slots(s, ip) + 1], held := s.held + multiset{ip})
  {
    if ip in s.perIp { assert s.perIp[ip := Slots(s, ip)] == s.perIp; }
    assert s.perIp[ip := Slots(s, ip)][ip := Slots(s, ip) + 1] == s.perIp[ip := Slots(s, ip) + 1];
  }

  lemma DroppedIs(s: State, ip: Ip)
    requires ip in s.held && s.released == multiset{} && s.emptied == multiset{}
    requires ip in s.perIp && s.perIp[ip] > 0
    ensures Dropped(s, ip)
            == s.(total := s.total - 1,
                  perIp := Without(s.perIp, s.perIp[ip], ip),
                  held := s.held - multiset{ip})
  {
    var a := Next(s, Release(ip), 0);
    assert a.released == multiset{ip};
    var b := Next(a, Uncount(ip), 0);
    assert b.released == multiset{};
    if s.perIp[ip] == 1 {
      assert b.emptied == multiset{ip};
      var c := Next(b, Tidy(ip), 0);
      assert c.emptied == multiset{};
      assert s.perIp[ip := 0] - {ip} == s.perIp - {ip};
    }
  }

  predicate Counts(perIp: map<Ip, nat>, held: multiset<Ip>, ip: Ip) {
    if ip in perIp then perIp[ip] == held[ip] && perIp[ip] > 0 else held[ip] == 0
  }

  ghost predicate AllCounts(perIp: map<Ip, nat>, held: multiset<Ip>) {
    forall ip :: Counts(perIp, held, ip)
  }

  lemma CountsTake(perIp: map<Ip, nat>, held: multiset<Ip>, ip: Ip)
    requires AllCounts(perIp, held)
    ensures AllCounts(perIp[ip := held[ip] + 1], held + multiset{ip})
  {
    var after, slots := perIp[ip := held[ip] + 1], held + multiset{ip};
    forall other ensures Counts(after, slots, other) {
      assert Counts(perIp, held, other);
    }
  }

  // The map once one of the n slots of an address is gone.
  function Without(perIp: map<Ip, nat>, n: nat, ip: Ip): map<Ip, nat>
    requires n > 0
  {
    if n == 1 then perIp - {ip} else perIp[ip := n - 1]
  }

  lemma CountsDrop(perIp: map<Ip, nat>, held: multiset<Ip>, ip: Ip)
    requires ip in held && AllCounts(perIp, held)
    ensures AllCounts(Without(perIp, held[ip], ip), held - multiset{ip})
  {
    var after, slots := Without(perIp, held[ip], ip), held - multiset{ip};
    forall other ensures Counts(after, slots, other) {
      assert Counts(perIp, held, other);
    }
  }

  lemma CountsAt(perIp: map<Ip, nat>, held: multiset<Ip>, ip: Ip)
    requires AllCounts(perIp, held)
    ensures (if ip in perIp then perIp[ip] else 0) == held[ip]
    ensures ip in held <==> ip in perIp
  {
    assert Counts(perIp, held, ip);
  }

  class Budget {
    var handshakes: int
    var perIp: map<Ip, nat>
    ghost var held: multiset<Ip>

    ghost function View(): State
      reads this
    {
      State(handshakes, perIp, held, Idle, multiset{}, multiset{})
    }

    ghost predicate Valid()
      reads this
    {
      handshakes == |held| && AllCounts(perIp, held)
    }

    constructor ()
      ensures Valid() && held == multiset{}
    {
      handshakes := 0;
      perIp := map[];
      held := multiset{};
    }

    // A slot is granted exactly when both budgets have room; a refusal changes nothing.
    method Reserve(ip: Ip, budget: nat) returns (granted: bool)
      requires Valid()
      modifies this
      ensures Valid()
      ensures granted <==> old(handshakes) < budget && old(held)[ip] < 8
      ensures held == if granted then old(held) + multiset{ip} else old(held)
      ensures View() == Reserved(old(View()), ip, budget)
      ensures !granted ==> handshakes == old(handshakes) && perIp == old(perIp)
    {
      hide Reserved, AllCounts;
      ReservedIs(View(), ip, budget);
      CountsAt(perIp, held, ip);
      if handshakes >= budget { return false; }
      var slots := if ip in perIp then perIp[ip] else 0;
      assert Slots(View(), ip) == slots;
      hide Slots;
      perIp := perIp[ip := slots];
      if slots >= MAX_HANDSHAKES_PER_IP {
        assert perIp == old(perIp);
        return false;
      }
      CountsTake(old(perIp), held, ip);
      perIp := perIp[ip := slots + 1];
      assert perIp == old(perIp)[ip := slots + 1];
      handshakes := handshakes + 1;
      held := held + multiset{ip};
      granted := true;
    }

    // Returns the slot to both budgets, dropping an address that holds no more.
    method Drop(ip: Ip)
      requires Valid() && ip in held
      modifies this
      ensures Valid()
      ensures held == old(held) - multiset{ip}
      ensures View() == Dropped(old(View()), ip)
    {
      hide Dropped, AllCounts;
      CountsAt(perIp, held, ip);
      DroppedIs(View(), ip);
      CountsDrop(perIp, held, ip);
      handshakes := handshakes - 1;
      if ip in perIp {
        var slots := if perIp[ip] == 0 then 0 else perIp[ip] - 1;
        perIp := perIp[ip := slots];
        if slots == 0 {
          perIp := perIp - {ip};
          assert perIp == old(perIp) - {ip};
        }
      }
      held := held - multiset{ip};
    }
  }
}
