/** The lobby's message history (chat/src/config/messages.rs) as values: what each operation does
    to the records, and what every reachable history satisfies. */
module HistorySpec {
  import opened Wrappers

  // A SHA-256 naming a stored file; only compared.
  type Hash = nat

  datatype VoiceNote = VoiceNote(hash: Hash, duration: nat)

  datatype Record = Record(
    id: nat,
    username: string,
    text: string,
    image: Option<Hash>,
    timestamp: Option<nat>,
    reply: Option<nat>,
    hearts: seq<string>,
    edited: bool,
    voice: Option<VoiceNote>,
    pinned: bool)

  // The file a record names: its picture, else its voice clip.
  function Stored(r: Record): Option<Hash> {
    if r.image.Some? then r.image else if r.voice.Some? then Some(r.voice.value.hash) else None
  }

  datatype History = History(next: nat, records: seq<Record>)

  // ----- lookup -----

  // The first index at or after id, by linear search.
  function Position(records: seq<Record>, id: nat): (p: nat)
    ensures p <= |records|
    ensures forall i :: 0 <= i < p ==> records[i].id < id
    ensures p < |records| ==> records[p].id >= id
  {
    if records == [] || records[0].id >= id then 0 else 1 + Position(records[1..], id)
  }

  // The index of record id, by linear search.
  function Find(records: seq<Record>, id: nat): (r: Option<nat>)
    ensures r.Some? ==> r.value < |records| && records[r.value].id == id
    ensures r.None? ==> forall i :: 0 <= i < |records| ==> records[i].id != id
  {
    if records == [] then None
    else if records[0].id == id then Some(0)
    else
      match Find(records[1..], id)
      case None => None
      case Some(i) => Some(i + 1)
  }

  ghost predicate Sorted(records: seq<Record>) {
    forall i, j :: 0 <= i < j < |records| ==> records[i].id < records[j].id
  }

  lemma SortedUnique(records: seq<Record>, i: nat, j: nat)
    requires Sorted(records) && i < |records| && j < |records| && records[i].id == records[j].id
    ensures i == j
  {}

  // ----- operations -----

  // The length of what a record shows: author, text and hearts.
  function RecordSize(r: Record): nat {
    |r.username| + |r.text| + HeartSize(r.hearts)
  }

  function HeartSize(hearts: seq<string>): nat {
    if hearts == [] then 0 else HeartSize(hearts[..|hearts| - 1]) + |hearts[|hearts| - 1]|
  }

  // Appends and keeps the last limit records.
  function Trimmed(records: seq<Record>, limit: nat): (r: seq<Record>)
    ensures |r| <= |records|
  {
    if |records| > limit then records[|records| - limit..] else records
  }

  function Pushed(h: History, r: Record, limit: nat): History {
    if limit == 0 then History(h.next + 1, h.records)
    else History(h.next + 1, Trimmed(h.records + [r.(id := h.next)], limit))
  }

  function Toggled(hearts: seq<string>, name: string): seq<string> {
    if hearts == [] then [name]
    else if hearts[0] == name then hearts[1..]
    else [hearts[0]] + Toggled(hearts[1..], name)
  }

  function Pins(records: seq<Record>): nat {
    if records == [] then 0 else Pins(records[..|records| - 1]) + (if records[|records| - 1].pinned then 1 else 0)
  }

  datatype Limits = Limits(messages: nat, pins: nat)

  datatype Op =
    | TakeId
    | Push(record: Record)
    | Delete(id: nat)
    | Heart(id: nat, name: string)
    | Edit(id: nat, name: string, text: string)
    | Pin(id: nat)
    | Restart

  // A record that was never hearted, edited or pinned; its id is assigned on the way in.
  predicate Fresh(r: Record) {
    r.hearts == [] && !r.edited && !r.pinned
  }

  predicate Editable(r: Record, name: string) {
    r.username == name && Stored(r).None?
  }

  function Apply(h: History, l: Limits, op: Op): History {
    match op
    case TakeId => History(h.next + 1, h.records)
    case Push(r) => Pushed(h, r, l.messages)
    case Delete(id) =>
      var f := Find(h.records, id);
      if f.None? then h else History(h.next, h.records[..f.value] + h.records[f.value + 1..])
    case Heart(id, name) =>
      var f := Find(h.records, id);
      if f.None? then h
      else
        var r := h.records[f.value];
        History(h.next, h.records[f.value := r.(hearts := Toggled(r.hearts, name))])
    case Edit(id, name, text) =>
      var f := Find(h.records, id);
      if f.None? || !Editable(h.records[f.value], name) then h
      else History(h.next, h.records[f.value := h.records[f.value].(text := text, edited := true)])
    case Pin(id) =>
      var f := Find(h.records, id);
      if f.None? || (!h.records[f.value].pinned && Pins(h.records) >= l.pins) then h
      else
        var r := h.records[f.value];
        History(h.next, h.records[f.value := r.(pinned := !r.pinned)])
    case Restart =>
      History(if h.records == [] then 0 else h.records[|h.records| - 1].id + 1, h.records)
  }

  // ----- the invariant -----

  ghost predicate Distinct(names: seq<string>) {
    forall i, j :: 0 <= i < j < |names| ==> names[i] != names[j]
  }

  ghost predicate Inv(h: History, l: Limits) {
    && Sorted(h.records)
    && (forall r :: r in h.records ==> r.id < h.next && Distinct(r.hearts))
    && Pins(h.records) <= l.pins
  }

  lemma {:induction false} PinsConcat(a: seq<Record>, b: seq<Record>)
    ensures Pins(a + b) == Pins(a) + Pins(b)
    decreases |b|
  {
    if b == [] {
      assert a + b == a;
    } else {
      assert (a + b)[..|a + b| - 1] == a + b[..|b| - 1];
      PinsConcat(a, b[..|b| - 1]);
    }
  }

  lemma PinsOne(r: Record)
    ensures Pins([r]) == if r.pinned then 1 else 0
  {
    assert [r][..0] == [];
  }

  lemma PinsUpdate(records: seq<Record>, i: nat, r: Record)
    requires i < |records|
    ensures Pins(records[i := r]) + (if records[i].pinned then 1 else 0) == Pins(records) + (if r.pinned then 1 else 0)
  {
    var a, b := records[..i], records[i + 1..];
    assert records == a + [records[i]] + b && records[i := r] == a + [r] + b;
    PinsConcat(a + [records[i]], b);
    PinsConcat(a + [r], b);
    PinsConcat(a, [records[i]]);
    PinsConcat(a, [r]);
    PinsOne(records[i]);
    PinsOne(r);
  }

  lemma DistinctFront(name: string, names: seq<string>)
    requires Distinct(names) && name !in names
    ensures Distinct([name] + names)
  {}

  // One heart per name, whoever toggles.
  lemma {:induction false} ToggledDistinct(hearts: seq<string>, name: string)
    requires Distinct(hearts)
    ensures Distinct(Toggled(hearts, name))
    ensures forall n :: n in Toggled(hearts, name) <==> (n in hearts) != (n == name)
  {
    if hearts != [] {
      var first, rest := hearts[0], hearts[1..];
      assert hearts == [first] + rest && first !in rest;
      if first != name {
        ToggledDistinct(rest, name);
        DistinctFront(first, Toggled(rest, name));
      }
    }
  }

  // Toggling removes the first heart of that name, or adds one at the end.
  lemma {:induction false} ToggledAt(hearts: seq<string>, name: string, at: nat)
    requires at <= |hearts| && name !in hearts[..at] && (at < |hearts| ==> hearts[at] == name)
    ensures Toggled(hearts, name) == if at < |hearts| then hearts[..at] + hearts[at + 1..] else hearts + [name]
  {
    if at > 0 {
      assert hearts[..at][0] == hearts[0];
      assert hearts[..at][1..] == hearts[1..][..at - 1];
      ToggledAt(hearts[1..], name, at - 1);
    }
  }

  // Toggling twice restores who hearted the message.
  lemma ToggledTwice(hearts: seq<string>, name: string)
    requires Distinct(hearts)
    ensures forall n :: n in Toggled(Toggled(hearts, name), name) <==> n in hearts
  {
    ToggledDistinct(hearts, name);
    ToggledDistinct(Toggled(hearts, name), name);
  }

  lemma UpdateKeeps(h: History, l: Limits, i: nat, r: Record)
    requires Inv(h, l) && i < |h.records| && r.id == h.records[i].id && Distinct(r.hearts)
    requires Pins(h.records) - (if h.records[i].pinned then 1 else 0) + (if r.pinned then 1 else 0) <= l.pins
    ensures Inv(History(h.next, h.records[i := r]), l)
  {
    hide Distinct, Pins;
    PinsUpdate(h.records, i, r);
    var u := h.records[i := r];
    forall x | x in u ensures x.id < h.next && Distinct(x.hearts) {
      assert x == r || x in h.records;
    }
  }

  lemma PushKeeps(h: History, l: Limits, r: Record)
    requires Inv(h, l) && Fresh(r)
    ensures Inv(Pushed(h, r, l.messages), l)
  {
    if l.messages > 0 {
      hide Inv;
      var all := h.records + [r.(id := h.next)];
      AppendKeeps(h, l, r.(id := h.next));
      if |all| > l.messages { DropKeeps(History(h.next + 1, all), l, |all| - l.messages); }
    } else {
      NextKeeps(h, l);
    }
  }

  lemma NextKeeps(h: History, l: Limits)
    requires Inv(h, l)
    ensures Inv(History(h.next + 1, h.records), l)
  {
    hide Pins, Distinct, Sorted;
  }

  lemma AppendKeeps(h: History, l: Limits, r: Record)
    requires Inv(h, l) && Fresh(r) && r.id == h.next
    ensures Inv(History(h.next + 1, h.records + [r]), l)
  {
    hide Pins;
    PinsConcat(h.records, [r]);
    PinsOne(r);
    SortedJoin(h.records, [r]);
  }

  lemma DropKeeps(h: History, l: Limits, n: nat)
    requires Inv(h, l) && n <= |h.records|
    ensures Inv(History(h.next, h.records[n..]), l)
  {
    hide Pins, Distinct;
    var a, b := h.records[..n], h.records[n..];
    assert h.records == a + b;
    PinsConcat(a, b);
    SortedParts(a, b);
  }

  lemma SortedParts(a: seq<Record>, b: seq<Record>)
    requires Sorted(a + b)
    ensures Sorted(a) && Sorted(b)
    ensures forall r, s :: r in a && s in b ==> r.id < s.id
  {
    var all := a + b;
    forall i, j | 0 <= i < j < |a| ensures a[i].id < a[j].id {
      assert all[i] == a[i] && all[j] == a[j];
    }
    forall i, j | 0 <= i < j < |b| ensures b[i].id < b[j].id {
      assert all[|a| + i] == b[i] && all[|a| + j] == b[j];
    }
    forall r, s | r in a && s in b ensures r.id < s.id {
      var i :| 0 <= i < |a| && a[i] == r;
      var j :| 0 <= j < |b| && b[j] == s;
      assert all[i] == r && all[|a| + j] == s;
    }
  }

  lemma SortedJoin(a: seq<Record>, b: seq<Record>)
    requires Sorted(a) && Sorted(b)
    requires forall r, s :: r in a && s in b ==> r.id < s.id
    ensures Sorted(a + b)
  {
    forall i, j | 0 <= i < j < |a + b| ensures (a + b)[i].id < (a + b)[j].id {
      if j < |a| {
        assert a[i].id < a[j].id;
      } else if i < |a| {
        assert a[i] in a && b[j - |a|] in b;
      } else {
        assert b[i - |a|].id < b[j - |a|].id;
      }
    }
  }

  lemma RestartKeeps(h: History, l: Limits)
    requires Inv(h, l)
    ensures Inv(Apply(h, l, Restart), l)
  {
    hide Pins, Distinct;
    forall r | r in h.records ensures r.id <= h.records[|h.records| - 1].id {
      var i :| 0 <= i < |h.records| && h.records[i] == r;
    }
  }

  lemma DeleteKeeps(h: History, l: Limits, i: nat)
    requires Inv(h, l) && i < |h.records|
    ensures Inv(History(h.next, h.records[..i] + h.records[i + 1..]), l)
  {
    hide Pins, Distinct, Sorted;
    var a, m, b := h.records[..i], [h.records[i]], h.records[i + 1..];
    assert h.records == (a + m) + b;
    PinsConcat(a + m, b);
    PinsConcat(a, m);
    PinsConcat(a, b);
    SortedParts(a + m, b);
    SortedParts(a, m);
    SortedJoin(a, b);
  }

  // Every operation keeps the history well-formed.
  lemma ApplyKeeps(h: History, l: Limits, op: Op)
    requires Inv(h, l) && (op.Push? ==> Fresh(op.record))
    ensures Inv(Apply(h, l, op), l)
  {
    hide Pins, Toggled, Find, Pushed, Sorted;
    match op
    case TakeId =>
    case Push(r) => PushKeeps(h, l, r);
    case Delete(id) =>
      var f := Find(h.records, id);
      if f.Some? { DeleteKeeps(h, l, f.value); }
    case Heart(id, name) =>
      var f := Find(h.records, id);
      if f.Some? {
        var r := h.records[f.value];
        ToggledDistinct(r.hearts, name);
        UpdateKeeps(h, l, f.value, r.(hearts := Toggled(r.hearts, name)));
      }
    case Edit(id, name, text) =>
      var f := Find(h.records, id);
      if f.Some? { UpdateKeeps(h, l, f.value, h.records[f.value].(text := text, edited := true)); }
    case Pin(id) =>
      var f := Find(h.records, id);
      if f.Some? && (h.records[f.value].pinned || Pins(h.records) < l.pins) {
        var r := h.records[f.value];
        UpdateKeeps(h, l, f.value, r.(pinned := !r.pinned));
      }
    case Restart => RestartKeeps(h, l);
  }

  predicate Sane(ops: seq<Op>) {
    forall i :: 0 <= i < |ops| ==> (ops[i].Push? ==> Fresh(ops[i].record))
  }

  // The history after a run of operations from an empty one.
  function Reach(ops: seq<Op>, l: Limits): History {
    if ops == [] then History(0, []) else Apply(Reach(ops[..|ops| - 1], l), l, ops[|ops| - 1])
  }

  // In every reachable history ids strictly increase and stay below next, no name hearts a message
  // twice, and the pins are within their limit.
  lemma {:induction false} ReachableInv(ops: seq<Op>, l: Limits)
    requires Sane(ops)
    ensures Inv(Reach(ops, l), l)
  {
    hide Apply, Inv;
    if ops == [] {
      EmptyInv(l);
    } else {
      ReachableInv(ops[..|ops| - 1], l);
      ApplyKeeps(Reach(ops[..|ops| - 1], l), l, ops[|ops| - 1]);
    }
  }

  lemma EmptyInv(l: Limits)
    ensures Inv(History(0, []), l)
  {}

  // A push with a nonzero limit leaves at most that many records, the newest last.
  lemma PushBounds(h: History, l: Limits, r: Record)
    requires l.messages > 0
    ensures var records := Pushed(h, r, l.messages).records;
            && 0 < |records| <= l.messages
            && records[|records| - 1] == r.(id := h.next)
            && records == (h.records + [r.(id := h.next)])[|h.records| + 1 - |records|..]
  {}

  // Every reachable history keeps the limit.
  lemma {:induction false} ReachableBounded(ops: seq<Op>, l: Limits)
    ensures |Reach(ops, l).records| <= l.messages
  {
    hide Toggled, Pins;
    if ops != [] { ReachableBounded(ops[..|ops| - 1], l); }
  }

  // ----- ids over a run -----

  predicate Issues(op: Op) { op.TakeId? || op.Push? }

  // The ids a run hands out, in order.
  function Issued(ops: seq<Op>, l: Limits): (ids: seq<nat>) {
    if ops == [] then []
    else
      var n := |ops| - 1;
      Issued(ops[..n], l) + (if Issues(ops[n]) then [Reach(ops[..n], l).next] else [])
  }

  // One more operation.
  lemma ReachLast(ops: seq<Op>, op: Op, l: Limits)
    ensures Reach(ops + [op], l) == Apply(Reach(ops, l), l, op)
    ensures Issued(ops + [op], l) == if Issues(op) then Issued(ops, l) + [Reach(ops, l).next] else Issued(ops, l)
  {
    hide Apply;
    assert (ops + [op])[..|ops|] == ops;
  }

  lemma Unsnoc(ops: seq<Op>)
    requires ops != []
    ensures ops == ops[..|ops| - 1] + [ops[|ops| - 1]]
  {}

  // One above the highest id.
  function HighWater(ids: seq<nat>): (w: nat)
    ensures forall id :: id in ids ==> id < w
    ensures w > 0 ==> w - 1 in ids
  {
    if ids == [] then 0
    else
      var n := |ids| - 1;
      var w := HighWater(ids[..n]);
      assert ids == ids[..n] + [ids[n]];
      if ids[n] < w then w else ids[n] + 1
  }

  // Everything below the high-water mark was handed out, and neither next nor any kept id is past it.
  ghost predicate Covered(h: History, ids: seq<nat>) {
    && h.next <= HighWater(ids)
    && (forall id :: 0 <= id < HighWater(ids) ==> id in ids)
    && (forall r :: r in h.records ==> r.id < h.next)
  }

  lemma HighWaterLast(ids: seq<nat>, id: nat)
    ensures HighWater(ids + [id]) == if id < HighWater(ids) then HighWater(ids) else id + 1
  {
    assert (ids + [id])[..|ids|] == ids;
  }

  lemma {:induction false} RunCovered(ops: seq<Op>, l: Limits)
    requires Sane(ops)
    ensures Covered(Reach(ops, l), Issued(ops, l))
  {
    hide Apply, Sorted, Distinct, Pins, HighWater, Reach, Issued;
    if ops == [] {
      NothingIssued(l);
    } else {
      var n := |ops| - 1;
      var h, ids := Reach(ops[..n], l), Issued(ops[..n], l);
      RunCovered(ops[..n], l);
      ReachableInv(ops[..n], l);
      ReachableInv(ops, l);
      Unsnoc(ops);
      ReachLast(ops[..n], ops[n], l);
      NextIs(h, l, ops[n]);
      HighWaterLast(ids, h.next);
      if h.records != [] { assert h.records[|h.records| - 1] in h.records; }
    }
  }

  lemma NothingIssued(l: Limits)
    ensures Covered(Reach([], l), Issued([], l))
  {}

  lemma NextIs(h: History, l: Limits, op: Op)
    ensures Apply(h, l, op).next
            == if Issues(op) then h.next + 1
               else if op.Restart? then (if h.records == [] then 0 else h.records[|h.records| - 1].id + 1)
               else h.next
  {
    hide Toggled, Pins, Find;
  }

  // A restart at this point of a run continues past every id the run has handed out.
  ghost predicate RestartsFresh(ops: seq<Op>, l: Limits) {
    forall id :: id in Issued(ops, l) ==> id < Apply(Reach(ops, l), l, Restart).next
  }

  // It does exactly when nothing was handed out yet or the newest kept message has the highest id ever
  // handed out; next itself does not tell, because an earlier restart may have set it back.
  lemma RestartFreshIff(ops: seq<Op>, l: Limits)
    requires Sane(ops)
    ensures var records := Reach(ops, l).records;
            RestartsFresh(ops, l)
            <==> Issued(ops, l) == []
                 || (records != [] && records[|records| - 1].id == HighWater(Issued(ops, l)) - 1)
  {
    hide Reach, Issued, Sorted, Distinct, Pins, HighWater;
    RunCovered(ops, l);
    var h, ids := Reach(ops, l), Issued(ops, l);
    if ids != [] { assert ids[0] in ids && ids[0] < HighWater(ids); }
    if h.records != [] { assert h.records[|h.records| - 1] in h.records; }
  }

  lemma FreshIsHigh(ops: seq<Op>, l: Limits)
    requires Sane(ops)
    ensures RestartsFresh(ops, l) <==> Apply(Reach(ops, l), l, Restart).next == HighWater(Issued(ops, l))
  {
    hide Reach, Issued, Sorted, Distinct, Pins, HighWater;
    RunCovered(ops, l);
    var h := Reach(ops, l);
    if h.records != [] { assert h.records[|h.records| - 1] in h.records; }
  }

  ghost predicate AllDifferent(ids: seq<nat>) {
    forall i, j :: 0 <= i < j < |ids| ==> ids[i] != ids[j]
  }

  // Every id is handed out at the high-water mark.
  ghost predicate IssuedAtMark(ops: seq<Op>, l: Limits) {
    forall i :: 0 <= i < |ops| && Issues(ops[i]) ==> Reach(ops[..i], l).next == HighWater(Issued(ops[..i], l))
  }

  // No id is handed out twice exactly when each is handed out at the high-water mark.
  lemma {:induction false} IssuedDifferentIff(ops: seq<Op>, l: Limits)
    requires Sane(ops)
    ensures AllDifferent(Issued(ops, l)) <==> IssuedAtMark(ops, l)
  {
    hide Reach, HighWater, Issued, IssuedAtMark, AllDifferent;
    if ops == [] {
      NoneDifferent(l);
    } else {
      var n := |ops| - 1;
      var init := ops[..n];
      Unsnoc(ops);
      ReachLast(init, ops[n], l);
      IssuedDifferentIff(init, l);
      RunCovered(init, l);
      MarkLast(ops, l);
      var ids, next := Issued(init, l), Reach(init, l).next;
      if Issues(ops[n]) { DifferentLast(ids, next); }
    }
  }

  lemma NoneDifferent(l: Limits)
    ensures AllDifferent(Issued([], l)) && IssuedAtMark([], l)
  {}

  lemma MarkLast(ops: seq<Op>, l: Limits)
    requires ops != []
    ensures var n := |ops| - 1;
            IssuedAtMark(ops, l)
            <==> (IssuedAtMark(ops[..n], l)
                  && (Issues(ops[n]) ==> Reach(ops[..n], l).next == HighWater(Issued(ops[..n], l))))
  {
    hide Reach, HighWater, Issued;
    var n := |ops| - 1;
    assert forall i :: 0 <= i < n ==> ops[..n][..i] == ops[..i];
    if IssuedAtMark(ops[..n], l) && (Issues(ops[n]) ==> Reach(ops[..n], l).next == HighWater(Issued(ops[..n], l))) {
      forall i | 0 <= i < |ops| && Issues(ops[i]) ensures Reach(ops[..i], l).next == HighWater(Issued(ops[..i], l)) {
        if i < n { assert ops[..n][i] == ops[i]; }
      }
    }
    if IssuedAtMark(ops, l) {
      forall i | 0 <= i < n && Issues(ops[..n][i]) ensures Reach(ops[..n][..i], l).next == HighWater(Issued(ops[..n][..i], l)) {
        assert ops[..n][i] == ops[i];
      }
    }
  }

  lemma DifferentLast(ids: seq<nat>, id: nat)
    ensures AllDifferent(ids + [id]) <==> AllDifferent(ids) && id !in ids
  {
    var all := ids + [id];
    if AllDifferent(all) {
      forall i, j | 0 <= i < j < |ids| ensures ids[i] != ids[j] { assert all[i] != all[j]; }
      forall i | 0 <= i < |ids| ensures ids[i] != id { assert all[i] != all[|ids|]; }
    }
  }

  // ----- restarts decide -----

  // Every restart that a later operation issues an id after is fresh.
  ghost predicate UsedRestartsFresh(ops: seq<Op>, l: Limits) {
    forall r, i :: 0 <= r < i < |ops| && ops[r].Restart? && Issues(ops[i]) ==> RestartsFresh(ops[..r], l)
  }

  // Below the mark nothing but handing out an id gets next any higher.
  lemma {:induction false} StaysBelow(ops: seq<Op>, l: Limits, r: nat, i: nat)
    requires Sane(ops) && r <= i <= |ops| && forall k :: r <= k < i ==> !Issues(ops[k])
    ensures Reach(ops[..i], l).next <= Reach(ops[..r], l).next
    ensures Issued(ops[..i], l) == Issued(ops[..r], l)
    decreases i
  {
    hide Apply, Sorted, Distinct, Pins;
    if r < i {
      StaysBelow(ops, l, r, i - 1);
      assert ops[..i][..i - 1] == ops[..i - 1];
      ReachableInv(ops[..i - 1], l);
      NextIs(Reach(ops[..i - 1], l), l, ops[i - 1]);
      var h := Reach(ops[..i - 1], l);
      if h.records != [] { assert h.records[|h.records| - 1] in h.records; }
    }
  }

  // While every restart so far was fresh, next is at the mark.
  lemma {:induction false} AtMark(ops: seq<Op>, l: Limits)
    requires Sane(ops)
    requires forall r :: 0 <= r < |ops| && ops[r].Restart? ==> RestartsFresh(ops[..r], l)
    ensures Reach(ops, l).next == HighWater(Issued(ops, l))
  {
    hide Apply, RestartsFresh, HighWater, Reach, Issued;
    if ops == [] {
      NoneIssued(l);
    } else {
      var n := |ops| - 1;
      var init := ops[..n];
      assert forall r :: 0 <= r < n ==> init[..r] == ops[..r] && init[r] == ops[r];
      AtMark(init, l);
      Unsnoc(ops);
      ReachLast(init, ops[n], l);
      NextIs(Reach(init, l), l, ops[n]);
      HighWaterLast(Issued(init, l), Reach(init, l).next);
      if ops[n].Restart? { FreshIsHigh(init, l); }
    }
  }

  lemma NoneIssued(l: Limits)
    ensures Reach([], l).next == 0 == HighWater(Issued([], l))
  {}

  // The first id handed out after a restart that is not fresh was handed out before.
  lemma FirstAfter(ops: seq<Op>, l: Limits, r: nat, i: nat)
    requires Sane(ops) && r < i < |ops| && ops[r].Restart? && Issues(ops[i])
    requires !RestartsFresh(ops[..r], l)
    ensures exists j :: r < j <= i && Issues(ops[j]) && Reach(ops[..j], l).next < HighWater(Issued(ops[..j], l))
    decreases i
  {
    hide Reach, Issued, Apply, RestartsFresh, HighWater;
    if k :| r < k < i && Issues(ops[k]) {
      FirstAfter(ops, l, r, k);
    } else {
      RestartStep(ops, l, r);
      FreshIsHigh(ops[..r], l);
      RunCovered(ops[..r + 1], l);
      StaysBelow(ops, l, r + 1, i);
    }
  }

  lemma RestartStep(ops: seq<Op>, l: Limits, r: nat)
    requires r < |ops| && ops[r].Restart?
    ensures Reach(ops[..r + 1], l) == Apply(Reach(ops[..r], l), l, Restart)
    ensures Issued(ops[..r + 1], l) == Issued(ops[..r], l)
  {
    hide Apply;
    assert ops[..r + 1][..r] == ops[..r];
  }

  // Over any run no id is handed out twice exactly when every restart after which ids are still handed
  // out finds the highest id ever handed out on its newest kept message, or nothing handed out.
  lemma IdsDifferentIff(ops: seq<Op>, l: Limits)
    requires Sane(ops)
    ensures AllDifferent(Issued(ops, l)) <==> UsedRestartsFresh(ops, l)
  {
    hide Reach, Issued, RestartsFresh, HighWater, AllDifferent;
    IssuedDifferentIff(ops, l);
    if UsedRestartsFresh(ops, l) {
      forall i | 0 <= i < |ops| && Issues(ops[i]) ensures Reach(ops[..i], l).next == HighWater(Issued(ops[..i], l)) {
        assert forall r :: 0 <= r < i ==> ops[..i][..r] == ops[..r] && ops[..i][r] == ops[r];
        AtMark(ops[..i], l);
      }
    }
    if IssuedAtMark(ops, l) {
      forall r, i | 0 <= r < i < |ops| && ops[r].Restart? && Issues(ops[i]) ensures RestartsFresh(ops[..r], l) {
        if !RestartsFresh(ops[..r], l) { FirstAfter(ops, l, r, i); }
      }
    }
  }

  // The operations a run starts with, and what it has handed out by then.
  ghost predicate Arrives(ops: seq<Op>, l: Limits, h: History, ids: seq<nat>) {
    Reach(ops, l) == h && Issued(ops, l) == ids
  }

  lemma Goes(ops: seq<Op>, l: Limits, h: History, ids: seq<nat>, op: Op)
    requires Arrives(ops, l, h, ids)
    ensures Arrives(ops + [op], l, Apply(h, l, op), if Issues(op) then ids + [h.next] else ids)
  {
    hide Reach, Issued, Apply;
    ReachLast(ops, op, l);
  }

  // The operations of the two examples, one by one.
  lemma Examples(r: Record, l: Limits)
    requires l.messages >= 2
    ensures var one, two := r.(id := 0), r.(id := 1);
            && Apply(History(0, []), l, Push(r)) == History(1, [one])
            && Apply(History(1, [one]), l, Delete(0)) == History(1, [])
            && Apply(History(1, []), l, Restart) == History(0, [])
            && Apply(History(1, [one]), l, Push(r)) == History(2, [one, two])
            && Apply(History(2, [one, two]), l, Delete(1)) == History(2, [one])
            && Apply(History(2, [one]), l, Restart) == History(1, [one])
            && Apply(History(1, [one]), l, Restart) == History(1, [one])
  {
    var one, two := r.(id := 0), r.(id := 1);
    assert [] + [one] == [one] && [one] + [two] == [one, two];
    assert Find([one], 0) == Some(0);
    assert [one, two][1..] == [two] && Find([two], 1) == Some(0) && Find([one, two], 1) == Some(1);
    assert [one, two][..1] + [one, two][2..] == [one];
    assert [one][..0] + [one][1..] == [];
  }

  // Storing one message, deleting it and restarting hands its id out again.
  lemma RestartReuses(r: Record, l: Limits)
    requires l.messages >= 2
    ensures Issued([Push(r), Delete(0), Restart, Push(r)], l) == [0, 0]
  {
    hide Reach, Issued, Apply;
    var one := r.(id := 0);
    Examples(r, l);
    assert Arrives([], l, History(0, []), []) by { NoneYet(l); }
    Goes([], l, History(0, []), [], Push(r));
    Goes([] + [Push(r)], l, History(1, [one]), [0], Delete(0));
    Goes([] + [Push(r)] + [Delete(0)], l, History(1, []), [0], Restart);
    Goes([] + [Push(r)] + [Delete(0)] + [Restart], l, History(0, []), [0], Push(r));
    assert [Push(r), Delete(0), Restart, Push(r)] == [] + [Push(r)] + [Delete(0)] + [Restart] + [Push(r)];
  }

  lemma NoneYet(l: Limits)
    ensures Arrives([], l, History(0, []), [])
  {}

  // A second restart does not see what the first one lost: the newest kept id is then just below next,
  // and still the id handed out next is not new.
  lemma SecondRestartReuses(r: Record, l: Limits)
    requires l.messages >= 2
    ensures Reach([Push(r), Push(r), Delete(1), Restart], l) == History(1, [r.(id := 0)])
    ensures !RestartsFresh([Push(r), Push(r), Delete(1), Restart], l)
    ensures Issued([Push(r), Push(r), Delete(1), Restart, Restart, Push(r)], l) == [0, 1, 1]
  {
    hide Reach, Issued, Apply;
    var one, two := r.(id := 0), r.(id := 1);
    Examples(r, l);
    assert Arrives([], l, History(0, []), []) by { NoneYet(l); }
    Goes([], l, History(0, []), [], Push(r));
    Goes([] + [Push(r)], l, History(1, [one]), [0], Push(r));
    Goes([] + [Push(r)] + [Push(r)], l, History(2, [one, two]), [0, 1], Delete(1));
    Goes([] + [Push(r)] + [Push(r)] + [Delete(1)], l, History(2, [one]), [0, 1], Restart);
    var four := [] + [Push(r)] + [Push(r)] + [Delete(1)] + [Restart];
    Goes(four, l, History(1, [one]), [0, 1], Restart);
    Goes(four + [Restart], l, History(1, [one]), [0, 1], Push(r));
    assert four == [Push(r), Push(r), Delete(1), Restart];
    assert four + [Restart] + [Push(r)] == [Push(r), Push(r), Delete(1), Restart, Restart, Push(r)];
    assert 1 in Issued(four, l);
  }
}
