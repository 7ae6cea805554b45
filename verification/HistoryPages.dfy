/** Paging through the history (chat/src/config/messages.rs:567-595): what one page holds, and what a
    client collects by following each page's start while others keep changing the history. */
module HistoryPages {
  import opened Wrappers
  import opened HistorySpec

  // ----- one page -----

  function Total(records: seq<Record>): nat {
    if records == [] then 0 else RecordSize(records[0]) + Total(records[1..])
  }

  // A page ending before to takes one more record as long as it has fewer than count and, unless it is
  // empty, stays within the budget.
  predicate TakesMore(records: seq<Record>, from: nat, to: nat, count: nat, budget: nat)
    requires from <= to <= |records|
  {
    from > 0 && to - from < count && (from == to || Total(records[from - 1..to]) <= budget)
  }

  function PageFrom(records: seq<Record>, from: nat, to: nat, count: nat, budget: nat): (r: nat)
    requires from <= to <= |records|
    ensures r <= from && !TakesMore(records, r, to, count, budget)
  {
    if TakesMore(records, from, to, count, budget) then PageFrom(records, from - 1, to, count, budget) else from
  }

  function PageEnd(h: History, before: Option<nat>): (to: nat)
    ensures to <= |h.records|
  {
    if before.None? then |h.records| else Position(h.records, before.value)
  }

  datatype Page = Page(messages: seq<Record>, start: nat, more: bool, kept: nat)

  function PageAt(h: History, before: Option<nat>, count: nat, budget: nat): Page {
    var to := PageEnd(h, before);
    var from := PageFrom(h.records, to, to, count, budget);
    Page(h.records[from..to], if from < |h.records| then h.records[from].id else h.next, from > 0, |h.records|)
  }

  lemma {:induction false} PageFromFits(records: seq<Record>, from: nat, to: nat, count: nat, budget: nat)
    requires from <= to <= |records| && to - from <= count
    requires to - from <= 1 || Total(records[from..to]) <= budget
    ensures var r := PageFrom(records, from, to, count, budget);
            to - r <= count && (to - r <= 1 || Total(records[r..to]) <= budget)
  {
    if TakesMore(records, from, to, count, budget) {
      PageFromFits(records, from - 1, to, count, budget);
    }
  }

  predicate Precedes(r: Record, before: Option<nat>) {
    before.Some? ==> r.id < before.value
  }

  // The records before the cursor are the first PageEnd ones.
  lemma BeforeCursor(h: History, l: Limits, before: Option<nat>, i: nat)
    requires Inv(h, l) && i < |h.records|
    ensures i < PageEnd(h, before) <==> Precedes(h.records[i], before)
  {
    hide Distinct, Pins;
    var to := PageEnd(h, before);
    if before.Some? && to < i { assert h.records[to].id < h.records[i].id; }
  }

  // What a page with room for a message holds: the newest records before the cursor, oldest first,
  // within the budget unless there is only one; as many as count and budget allow; and more exactly
  // when an older record remains.
  lemma PageHolds(h: History, l: Limits, before: Option<nat>, count: nat, budget: nat) returns (from: nat, to: nat)
    requires Inv(h, l) && count > 0
    ensures from <= to <= |h.records|
    ensures forall i :: 0 <= i < |h.records| ==> (i < to <==> Precedes(h.records[i], before))
    ensures var p := PageAt(h, before, count, budget);
            && p.messages == h.records[from..to]
            && |p.messages| <= count
            && (|p.messages| == 1 || Total(p.messages) <= budget)
            && (p.messages == [] <==> to == 0)
            && (p.more <==> from > 0)
            && (p.more ==> |p.messages| == count || Total([h.records[from - 1]] + p.messages) > budget)
            && p.start == (if to > 0 then p.messages[0].id else if h.records == [] then h.next else h.records[0].id)
            && p.kept == |h.records|
  {
    hide Inv, PageFrom;
    to := PageEnd(h, before);
    from := PageFrom(h.records, to, to, count, budget);
    assert h.records[to..to] == [];
    PageFromFits(h.records, to, to, count, budget);
    if from > 0 {
      assert h.records[from - 1..to] == [h.records[from - 1]] + h.records[from..to];
    }
    forall i | 0 <= i < |h.records| ensures i < to <==> Precedes(h.records[i], before) {
      BeforeCursor(h, l, before, i);
    }
  }

  // ----- a walk -----

  function Ids(records: seq<Record>): set<nat> {
    set r | r in records :: r.id
  }

  function IdList(records: seq<Record>): (ids: seq<nat>)
    ensures |ids| == |records| && forall i :: 0 <= i < |ids| ==> ids[i] == records[i].id
  {
    seq(|records|, i requires 0 <= i < |records| => records[i].id)
  }

  ghost predicate Increasing(ids: seq<nat>) {
    forall i, j :: 0 <= i < j < |ids| ==> ids[i] < ids[j]
  }

  // The server's history, the client's cursor and what it has collected, oldest first.
  datatype Walk = Walk(h: History, before: Option<nat>, got: seq<nat>, done: bool)

  // Between requests anyone may store, trim, delete, heart, edit or pin.
  datatype Step =
    | Change(op: Op)
    | Request(count: nat, budget: nat)

  predicate Allowed(step: Step) {
    step.Change? ==> !step.op.Restart? && (step.op.Push? ==> Fresh(step.op.record))
  }

  // The server answers with at least one message, whatever page size is configured.
  function Answer(w: Walk, count: nat, budget: nat): Page {
    PageAt(w.h, w.before, if count > 0 then count else 1, budget)
  }

  function Next(w: Walk, l: Limits, step: Step): Walk {
    match step
    case Change(op) => w.(h := Apply(w.h, l, op))
    case Request(count, budget) =>
      if w.done then w
      else
        var p := Answer(w, count, budget);
        Walk(w.h, Some(p.start), IdList(p.messages) + w.got, !p.more)
  }

  ghost predicate WalkRun(states: seq<Walk>, steps: seq<Step>, l: Limits) {
    && |states| == |steps| + 1
    && Inv(states[0].h, l) && states[0].before.None? && states[0].got == [] && !states[0].done
    && (steps != [] ==> steps[0].Request?)
    && forall i :: 0 <= i < |steps| ==> Allowed(steps[i]) && states[i + 1] == Next(states[i], l, steps[i])
  }

  // first is the history at the first request, kept the messages that never leave it.
  ghost predicate WalkInv(w: Walk, first: History, kept: set<nat>, l: Limits) {
    && Inv(w.h, l)
    && first.next <= w.h.next
    && (forall id :: id in Ids(w.h.records) && id < first.next ==> id in Ids(first.records))
    && (forall id :: id in Ids(first.records) ==> id < first.next)
    && Increasing(w.got)
    && (forall id :: id in w.got ==> id in Ids(first.records))
    && (w.before.None? ==> w.h == first && w.got == [] && !w.done)
    && (w.before.Some? && !w.done ==> w.got != [] && w.got[0] == w.before.value)
    && (w.before.Some? && !w.done ==> forall id :: id in kept && id >= w.before.value ==> id in w.got)
    && (w.done ==> forall id :: id in kept ==> id in w.got)
  }

  lemma ApplyIds(h: History, l: Limits, op: Op)
    requires !op.Restart?
    ensures h.next <= Apply(h, l, op).next
    ensures forall id :: id in Ids(Apply(h, l, op).records) ==> id in Ids(h.records) || id >= h.next
  {
    hide Toggled, Pins;
    var next := Apply(h, l, op);
    forall r | r in next.records ensures r.id in Ids(h.records) || r.id >= h.next {
      match op
      case TakeId =>
      case Push(p) =>
        assert r in h.records + [p.(id := h.next)];
      case Delete(id) =>
      case Restart =>
      case Heart(_, _) => SameIds(h.records, next.records, r);
      case Edit(_, _, _) => SameIds(h.records, next.records, r);
      case Pin(_) => SameIds(h.records, next.records, r);
    }
  }

  lemma SameIds(a: seq<Record>, b: seq<Record>, r: Record)
    requires |a| == |b| && forall i :: 0 <= i < |a| ==> a[i].id == b[i].id
    requires r in b
    ensures r.id in Ids(a)
  {
    var i :| 0 <= i < |b| && b[i] == r;
    assert a[i] in a;
  }

  lemma ChangeKeeps(w: Walk, first: History, kept: set<nat>, l: Limits, op: Op)
    requires WalkInv(w, first, kept, l) && w.before.Some?
    requires Allowed(Change(op))
    ensures WalkInv(Next(w, l, Change(op)), first, kept, l)
  {
    hide Apply, Ids, Increasing, Inv;
    ApplyKeeps(w.h, l, op);
    ApplyIds(w.h, l, op);
  }

  // The page answered is a slice of the records that ends where the cursor points.
  lemma AnswerIs(w: Walk, l: Limits, count: nat, budget: nat) returns (from: nat, to: nat)
    requires Inv(w.h, l)
    ensures from <= to <= |w.h.records|
    ensures Answer(w, count, budget).messages == w.h.records[from..to]
    ensures Answer(w, count, budget).more <==> from > 0
    ensures from > 0 ==> from < to
    ensures from < to ==> Answer(w, count, budget).start == w.h.records[from].id
    ensures forall i :: 0 <= i < |w.h.records| ==> (i < to <==> Precedes(w.h.records[i], w.before))
  {
    hide Inv, PageAt, Total;
    from, to := PageHolds(w.h, l, w.before, if count > 0 then count else 1, budget);
  }

  lemma RequestGets(w: Walk, first: History, kept: set<nat>, l: Limits, count: nat, budget: nat)
    requires WalkInv(w, first, kept, l) && !w.done
    ensures var p := Answer(w, count, budget);
            && (forall id :: id in IdList(p.messages) ==> id in Ids(first.records) && (w.before.Some? ==> id < w.before.value))
            && Increasing(IdList(p.messages))
            && (p.more ==> p.messages != [])
            && (p.messages != [] ==> p.start == IdList(p.messages)[0])
  {
    hide Answer, Ids, Increasing, Inv;
    var p := Answer(w, count, budget);
    var from, to := AnswerIs(w, l, count, budget);
    IncreasingSlice(w.h, l, from, to);
    forall id | id in IdList(p.messages) ensures id in Ids(first.records) && (w.before.Some? ==> id < w.before.value) {
      var i :| 0 <= i < |p.messages| && p.messages[i].id == id;
      assert w.h.records[from + i] == p.messages[i];
      IdsIn(w.h.records, p.messages[i]);
      if w.before.Some? {
        assert w.got[0] in w.got;
      }
    }
  }

  lemma IdsIn(records: seq<Record>, r: Record)
    requires r in records
    ensures r.id in Ids(records)
  {}

  lemma IncreasingSlice(h: History, l: Limits, from: nat, to: nat)
    requires Inv(h, l) && from <= to <= |h.records|
    ensures Increasing(IdList(h.records[from..to]))
  {
    hide Pins, Distinct, Ids;
  }

  // Every kept message that the cursor has not passed yet is on the page or older than its start.
  lemma RequestCovers(w: Walk, l: Limits, count: nat, budget: nat, id: nat)
    requires Inv(w.h, l) && id in Ids(w.h.records) && (w.before.Some? ==> id < w.before.value)
    ensures var p := Answer(w, count, budget);
            id in IdList(p.messages) || (p.more && id < p.start)
  {
    hide Answer, Pins, Distinct;
    var p := Answer(w, count, budget);
    var from, to := AnswerIs(w, l, count, budget);
    var r :| r in w.h.records && r.id == id;
    var i :| 0 <= i < |w.h.records| && w.h.records[i] == r;
    if i >= from {
      assert p.messages[i - from] == r && IdList(p.messages)[i - from] == id;
    } else {
      assert w.h.records[i].id < w.h.records[from].id;
    }
  }

  lemma IncreasingJoin(a: seq<nat>, b: seq<nat>)
    requires Increasing(a) && Increasing(b)
    requires b != [] ==> forall x :: x in a ==> x < b[0]
    ensures Increasing(a + b)
  {
    forall i, j | 0 <= i < j < |a + b| ensures (a + b)[i] < (a + b)[j] {
      if j >= |a| > i { assert a[i] in a; }
    }
  }

  lemma RequestKeeps(w: Walk, first: History, kept: set<nat>, l: Limits, count: nat, budget: nat)
    requires WalkInv(w, first, kept, l) && kept <= Ids(w.h.records)
    ensures WalkInv(Next(w, l, Request(count, budget)), first, kept, l)
    ensures Next(w, l, Request(count, budget)).before.Some?
  {
    hide Increasing, Answer, Ids, Inv, IdList;
    if !w.done {
      var p := Answer(w, count, budget);
      RequestGets(w, first, kept, l, count, budget);
      forall id | id in kept && (w.before.Some? ==> id < w.before.value)
        ensures id in IdList(p.messages) || (p.more && id < p.start)
      {
        RequestCovers(w, l, count, budget, id);
      }
      IncreasingJoin(IdList(p.messages), w.got);
    }
  }

  ghost predicate KeptThrough(states: seq<Walk>, n: nat, kept: set<nat>)
    requires n <= |states|
  {
    forall i :: 0 <= i < n ==> kept <= Ids(states[i].h.records)
  }

  lemma {:induction false} WalkReaches(states: seq<Walk>, steps: seq<Step>, l: Limits, i: nat, kept: set<nat>)
    requires WalkRun(states, steps, l) && i < |states| && KeptThrough(states, i + 1, kept)
    ensures WalkInv(states[i], states[0].h, kept, l) && (i > 0 ==> states[i].before.Some?)
  {
    hide Next, Apply, Ids, WalkInv;
    if i == 0 {
      WalkStarts(states[0], l, kept);
    } else {
      WalkReaches(states, steps, l, i - 1, kept);
      var w := states[i - 1];
      match steps[i - 1]
      case Change(op) =>
        ChangeKeeps(w, states[0].h, kept, l, op);
        ChangeBefore(w, l, op);
      case Request(count, budget) => RequestKeeps(w, states[0].h, kept, l, count, budget);
    }
  }

  lemma ChangeBefore(w: Walk, l: Limits, op: Op)
    ensures Next(w, l, Change(op)).before == w.before
  {
    hide Apply;
  }

  lemma WalkStarts(w: Walk, l: Limits, kept: set<nat>)
    requires Inv(w.h, l) && w.before.None? && w.got == [] && !w.done
    ensures WalkInv(w, w.h, kept, l)
  {
    hide Pins, Distinct;
  }

  // However the history changes between requests, what was collected is strictly increasing: no message
  // twice, each page older than the ones before it, and nothing stored after the walk began.
  lemma WalkNeverRepeats(states: seq<Walk>, steps: seq<Step>, l: Limits, i: nat)
    requires WalkRun(states, steps, l) && i < |states|
    ensures Increasing(states[i].got)
    ensures forall id :: id in states[i].got ==> id in Ids(states[0].h.records)
  {
    hide Inv;
    WalkReaches(states, steps, l, i, {});
  }

  // Once the server says there is no more, every message kept throughout the walk has been collected,
  // exactly once.
  lemma WalkCollectsAll(states: seq<Walk>, steps: seq<Step>, l: Limits, i: nat, id: nat)
    requires WalkRun(states, steps, l) && i < |states| && states[i].done
    requires KeptThrough(states, i + 1, {id})
    ensures exists k :: 0 <= k < |states[i].got| && states[i].got[k] == id
                        && forall j :: 0 <= j < |states[i].got| && j != k ==> states[i].got[j] != id
  {
    hide Inv, Ids, Increasing, Next;
    WalkReaches(states, steps, l, i, {id});
    assert id in {id};
    OnlyOnce(states[i].got, id);
  }

  lemma OnlyOnce(ids: seq<nat>, id: nat)
    requires Increasing(ids) && id in ids
    ensures exists k :: 0 <= k < |ids| && ids[k] == id && forall j :: 0 <= j < |ids| && j != k ==> ids[j] != id
  {
    var k :| 0 <= k < |ids| && ids[k] == id;
    forall j | 0 <= j < |ids| && j != k ensures ids[j] != id {
      if j < k { assert ids[j] < ids[k]; } else { assert ids[k] < ids[j]; }
    }
  }

  function Requests(steps: seq<Step>): nat {
    if steps == [] then 0
    else Requests(steps[..|steps| - 1]) + (if steps[|steps| - 1].Request? then 1 else 0)
  }

  lemma {:induction false} EachRequestGets(states: seq<Walk>, steps: seq<Step>, l: Limits, i: nat)
    requires WalkRun(states, steps, l) && i < |states|
    ensures states[i].done || Requests(steps[..i]) <= |states[i].got|
  {
    hide Inv, Apply;
    if i > 0 {
      EachRequestGets(states, steps, l, i - 1);
      assert steps[..i][..i - 1] == steps[..i - 1];
      var w := states[i - 1];
      if steps[i - 1].Request? && !w.done {
        WalkReaches(states, steps, l, i - 1, {});
        RequestGets(w, states[0].h, {}, l, steps[i - 1].count, steps[i - 1].budget);
      }
    }
  }

  lemma {:induction false} IncreasingWithin(ids: seq<nat>, all: set<nat>)
    requires Increasing(ids) && forall id :: id in ids ==> id in all
    ensures |ids| <= |all|
  {
    if ids != [] {
      var n := |ids| - 1;
      var last := ids[n];
      forall id | id in ids[..n] ensures id in all - {last} {
        var i :| 0 <= i < n && ids[i] == id;
        assert ids[i] < ids[n];
      }
      IncreasingWithin(ids[..n], all - {last});
      assert last in ids;
    }
  }

  lemma {:induction false} IdsBounded(records: seq<Record>)
    ensures |Ids(records)| <= |records|
  {
    if records == [] {
      assert Ids(records) == {};
    } else {
      IdsBounded(records[1..]);
      assert records == [records[0]] + records[1..];
      assert Ids(records) == Ids(records[1..]) + {records[0].id};
    }
  }

  // A walk ends after at most one request more than there were messages when it began.
  lemma WalkTerminates(states: seq<Walk>, steps: seq<Step>, l: Limits, i: nat)
    requires WalkRun(states, steps, l) && i < |states|
    requires Requests(steps[..i]) > |states[0].h.records|
    ensures states[i].done
  {
    hide Inv, Ids, Increasing;
    EachRequestGets(states, steps, l, i);
    WalkNeverRepeats(states, steps, l, i);
    IncreasingWithin(states[i].got, Ids(states[0].h.records));
    IdsBounded(states[0].h.records);
  }
}
