/** The history as the server holds it: records changed in place under one lock, with every lookup a
    binary search (chat/src/config/messages.rs). */
module HistoryStore {
  import opened Wrappers
  import opened HistorySpec
  import opened HistoryPages
  import opened HistoryFiles

  // Only one index splits the records into older than id and not older.
  lemma {:induction false} PositionIs(records: seq<Record>, id: nat, p: nat)
    requires p <= |records|
    requires forall i :: 0 <= i < p ==> records[i].id < id
    requires p < |records| ==> records[p].id >= id
    ensures Position(records, id) == p
  {
    if records != [] && records[0].id < id {
      PositionIs(records[1..], id, p - 1);
    }
  }

  lemma SortedAt(records: seq<Record>, i: nat, j: nat)
    requires Sorted(records) && i <= j < |records| && records[i].id >= records[j].id
    ensures i == j
  {}

  lemma FindIs(records: seq<Record>, id: nat, p: nat)
    requires Sorted(records) && p == Position(records, id)
    ensures Find(records, id) == if p < |records| && records[p].id == id then Some(p) else None
  {
    var f := Find(records, id);
    if f.Some? { SortedAt(records, p, f.value); }
  }

  class Messages {
    var next: nat
    var records: seq<Record>

    function View(): History
      reads this
    {
      History(next, records)
    }

    // Continues the ids of the loaded records.
    constructor (loaded: seq<Record>)
      ensures View() == Apply(History(0, loaded), Limits(0, 0), Restart)
    {
      next := if loaded == [] then 0 else loaded[|loaded| - 1].id + 1;
      records := loaded;
    }

    method TakeId() returns (id: nat)
      modifies this
      ensures id == old(next)
      ensures View() == Apply(old(View()), Limits(0, 0), Op.TakeId)
    {
      id := next;
      next := next + 1;
    }

    // Binary search for the index that splits the records into older than id and not older.
    method FindPosition(id: nat) returns (p: nat)
      requires Sorted(records)
      ensures p == Position(records, id)
    {
      var lo, hi := 0, |records|;
      while lo < hi
        invariant 0 <= lo <= hi <= |records|
        invariant forall i :: 0 <= i < lo ==> records[i].id < id
        invariant forall i :: hi <= i < |records| ==> records[i].id >= id
      {
        var mid := (lo + hi) / 2;
        if records[mid].id < id { lo := mid + 1; } else { hi := mid; }
      }
      p := lo;
      PositionIs(records, id, p);
    }

    method FindRecord(id: nat) returns (index: Option<nat>)
      requires Sorted(records)
      ensures index == Find(records, id)
    {
      var p := FindPosition(id);
      FindIs(records, id, p);
      index := if p < |records| && records[p].id == id then Some(p) else None;
    }

    // Stores a record and trims to the limit; gone are the files to delete, named those an avatar or the
    // icon uses.
    method Store(record: Record, l: Limits, named: set<Hash>) returns (id: nat, gone: seq<Hash>)
      requires Fresh(record)
      modifies this
      ensures id == old(next)
      ensures View() == Apply(old(View()), l, Push(record))
      ensures forall f :: f in gone <==> f in Orphans(Dropped(old(View()), l, Push(record)), records, named)
    {
      id := TakeId();
      if l.messages == 0 {
        gone := [];
        assert Names([]) == {};
        return;
      }
      records := records + [record.(id := id)];
      var over := if |records| > l.messages then |records| - l.messages else 0;
      var dropped := records[..over];
      records := records[over..];
      gone := OrphanList(dropped, records, named);
    }

    method Remove(id: nat, l: Limits, named: set<Hash>) returns (existed: bool, gone: seq<Hash>)
      requires Sorted(records)
      modifies this
      ensures existed <==> id in Ids(old(records))
      ensures View() == Apply(old(View()), l, Delete(id))
      ensures forall f :: f in gone <==> f in Orphans(Dropped(old(View()), l, Delete(id)), records, named)
    {
      var index := FindRecord(id);
      if index.None? {
        assert Names([]) == {};
        return false, [];
      }
      assert records[index.value] in records;
      var dropped := [records[index.value]];
      records := records[..index.value] + records[index.value + 1..];
      gone := OrphanList(dropped, records, named);
      existed := true;
    }

    method ToggleHeart(id: nat, username: string, l: Limits) returns (hearts: Option<seq<string>>)
      requires Sorted(records)
      modifies this
      ensures View() == Apply(old(View()), l, Heart(id, username))
      ensures hearts == (var f := Find(records, id); if f.None? then None else Some(records[f.value].hearts))
      ensures hearts.Some? <==> id in Ids(old(records))
    {
      var index := FindRecord(id);
      if index.None? { return None; }
      var r := records[index.value];
      assert r in records;
      var after := HeartsAfter(r.hearts, username);
      records := records[index.value := r.(hearts := after)];
      FindUpdate(old(records), index.value, r.(hearts := after), id);
      hearts := Some(after);
    }

    method Reword(id: nat, username: string, text: string, l: Limits) returns (edited: bool)
      requires Sorted(records)
      modifies this
      ensures View() == Apply(old(View()), l, Edit(id, username, text))
      ensures edited <==> exists r :: r in old(records) && r.id == id && Editable(r, username)
    {
      var index := FindRecord(id);
      if index.None? { return false; }
      var r := records[index.value];
      assert r in records;
      if r.username != username || Stored(r).Some? {
        forall s | s in records && s.id == id ensures s == r {
          var i :| 0 <= i < |records| && records[i] == s;
          SortedUnique(records, i, index.value);
        }
        return false;
      }
      records := records[index.value := r.(text := text, edited := true)];
      edited := true;
    }

    // The new state of the pin; None when the message is not kept or the pins are full.
    method TogglePin(id: nat, l: Limits) returns (pinned: Option<bool>)
      requires Sorted(records)
      modifies this
      ensures View() == Apply(old(View()), l, Pin(id))
      ensures pinned.Some? ==> exists i :: 0 <= i < |records| && records[i] == old(records)[i].(pinned := pinned.value)
                                           && records[i].id == id && pinned.value == !old(records)[i].pinned
      ensures pinned.None? <==> forall r :: r in old(records) && r.id == id ==> !r.pinned && Pins(old(records)) >= l.pins
    {
      var index := FindRecord(id);
      if index.None? { return None; }
      var r := records[index.value];
      assert r in records;
      var full := CountPins();
      if !r.pinned && full >= l.pins {
        forall s | s in records && s.id == id ensures s == r {
          var i :| 0 <= i < |records| && records[i] == s;
          SortedUnique(records, i, index.value);
        }
        return None;
      }
      records := records[index.value := r.(pinned := !r.pinned)];
      pinned := Some(!r.pinned);
    }

    method CountPins() returns (n: nat)
      ensures n == Pins(records)
    {
      n := 0;
      for i := 0 to |records|
        invariant n == Pins(records[..i])
      {
        assert records[..i + 1][..i] == records[..i];
        if records[i].pinned { n := n + 1; }
      }
      assert records[..|records|] == records;
    }

    static method HeartsAfter(hearts: seq<string>, username: string) returns (after: seq<string>)
      ensures after == Toggled(hearts, username)
    {
      var at := 0;
      while at < |hearts| && hearts[at] != username
        invariant 0 <= at <= |hearts|
        invariant username !in hearts[..at]
      {
        at := at + 1;
      }
      ToggledAt(hearts, username, at);
      after := if at < |hearts| then hearts[..at] + hearts[at + 1..] else hearts + [username];
    }

    // Walks back from the cursor until the page is full.
    static method WalkBack(records: seq<Record>, to: nat, count: nat, budget: nat) returns (from: nat)
      requires to <= |records|
      ensures from == PageFrom(records, to, to, count, budget)
    {
      hide Total, RecordSize, PageFrom;
      var size := 0;
      from := to;
      EmptyPage(records, to);
      while from > 0 && to - from < count
        invariant 0 <= from <= to
        invariant size == Total(records[from..to])
        invariant PageFrom(records, to, to, count, budget) == PageFrom(records, from, to, count, budget)
      {
        PageStep(records, from, to, count, budget);
        size := size + RecordSize(records[from - 1]);
        if size > budget && from != to { break; }
        from := from - 1;
      }
      PageStep(records, from, to, count, budget);
    }

    // One page, oldest first.
    method ReadPage(before: Option<nat>, count: nat, budget: nat) returns (page: Page)
      requires Sorted(records)
      ensures page == PageAt(View(), before, count, budget)
    {
      hide Sorted, PageFrom;
      var to := |records|;
      if before.Some? { to := FindPosition(before.value); }
      var from := WalkBack(records, to, count, budget);
      page := Page(records[from..to], if from < |records| then records[from].id else next, from > 0, |records|);
    }
  }

  lemma EmptyPage(records: seq<Record>, to: nat)
    requires to <= |records|
    ensures Total(records[to..to]) == 0
  {
    assert records[to..to] == [];
  }

  lemma PageStep(records: seq<Record>, from: nat, to: nat, count: nat, budget: nat)
    requires from <= to <= |records|
    ensures from > 0 ==> Total(records[from - 1..to]) == RecordSize(records[from - 1]) + Total(records[from..to])
    ensures PageFrom(records, from, to, count, budget)
            == if from > 0 && to - from < count && (from == to || Total(records[from - 1..to]) <= budget)
               then PageFrom(records, from - 1, to, count, budget) else from
  {
    hide RecordSize;
    if from > 0 {
      assert records[from - 1..to] == [records[from - 1]] + records[from..to];
    }
  }

  lemma FindUpdate(records: seq<Record>, i: nat, r: Record, id: nat)
    requires Sorted(records) && i < |records| && records[i].id == id && r.id == id
    ensures Find(records[i := r], id) == Some(i)
  {
    var u := records[i := r];
    var f := Find(u, id);
    assert u[i].id == id;
    if f.Some? { SortedUnique(records, f.value, i); }
  }
}
