/** The files the history names (chat/src/config/messages.rs:215-224, 387-392, 529-557): what an operation
    puts up for removal, and what a run of operations, uploads and removals leaves on disk. */
module HistoryFiles {
  import opened Wrappers
  import opened HistorySpec

  // The files named by records.
  function Names(records: seq<Record>): set<Hash> {
    set r | r in records && Stored(r).Some? :: Stored(r).value
  }

  // What a trim or a delete removes from disk: what the dropped records named and nothing else does.
  function Orphans(dropped: seq<Record>, kept: seq<Record>, named: set<Hash>): set<Hash> {
    Names(dropped) - Names(kept) - named
  }

  function Dropped(h: History, l: Limits, op: Op): seq<Record> {
    match op
    case Push(r) =>
      if l.messages == 0 then []
      else
        var all := h.records + [r.(id := h.next)];
        all[..|all| - |Trimmed(all, l.messages)|]
    case Delete(id) =>
      var f := Find(h.records, id);
      if f.None? then [] else [h.records[f.value]]
    case _ => []
  }

  // The records an operation starts from, with the one it adds.
  function Before(h: History, l: Limits, op: Op): seq<Record> {
    h.records + (if op.Push? && l.messages > 0 then [op.record] else [])
  }

  // A file that a kept record, an avatar or the icon still names survives; and no record that stays
  // loses its file, while every file that only dropped records named goes.
  lemma FilesSafe(h: History, l: Limits, op: Op, named: set<Hash>, f: Hash)
    ensures var gone := Orphans(Dropped(h, l, op), Apply(h, l, op).records, named);
            && (f in Names(Apply(h, l, op).records) || f in named ==> f !in gone)
            && ((op.Push? || op.Delete?) && f in Names(Before(h, l, op)) && f !in Names(Apply(h, l, op).records) && f !in named
                ==> f in gone)
  {
    hide Names, Find;
    match op
    case Push(r) =>
      if l.messages > 0 {
        var added := r.(id := h.next);
        var all := h.records + [added];
        var kept := Trimmed(all, l.messages);
        var cut := |all| - |kept|;
        assert all == all[..cut] + kept;
        NamesConcat(all[..cut], kept);
        NamesConcat(h.records, [added]);
        NamesConcat(h.records, [r]);
        NamesOne(r, added);
      } else {
        assert h.records + [] == h.records;
      }
    case Delete(id) =>
      var x := Find(h.records, id);
      assert h.records + [] == h.records;
      if x.Some? {
        var a, m, b := h.records[..x.value], [h.records[x.value]], h.records[x.value + 1..];
        assert h.records == (a + m) + b;
        NamesConcat(a + m, b);
        NamesConcat(a, m);
        NamesConcat(a, b);
      }
    case _ =>
  }

  lemma NamesSame(a: seq<Record>, b: seq<Record>, r: Record)
    requires |a| == |b| && forall i :: 0 <= i < |a| ==> Stored(a[i]) == Stored(b[i])
    requires r in b && Stored(r).Some?
    ensures Stored(r).value in Names(a)
  {
    var i :| 0 <= i < |b| && b[i] == r;
    assert a[i] in a;
  }

  lemma NamesConcat(a: seq<Record>, b: seq<Record>)
    ensures Names(a + b) == Names(a) + Names(b)
  {
    forall f ensures f in Names(a + b) <==> f in Names(a) + Names(b) {
      if f in Names(a) {
        var r :| r in a && Stored(r).Some? && Stored(r).value == f;
        assert r in a + b;
      }
      if f in Names(b) {
        var r :| r in b && Stored(r).Some? && Stored(r).value == f;
        assert r in a + b;
      }
    }
  }

  lemma NamesOne(r: Record, s: Record)
    requires Stored(r) == Stored(s)
    ensures Names([r]) == Names([s])
  {
    assert r in [r] && s in [s];
  }

  predicate NamesFile(op: Op, f: Hash) { op.Push? && Stored(op.record) == Some(f) }

  // How one operation moves a file between the records it starts from, drops and keeps.
  lemma StepNames(h: History, l: Limits, op: Op, f: Hash)
    ensures var kept := Names(Apply(h, l, op).records);
            var dropped := Names(Dropped(h, l, op));
            && (f in kept || f in dropped ==> f in Names(h.records) || (f in kept && NamesFile(op, f)))
            && (f in Names(h.records) ==> f in kept || f in dropped)
  {
    hide Names, Find, Toggled, Pins;
    var next := Apply(h, l, op);
    NoNames();
    match op
    case Push(r) => if l.messages > 0 { PushNames(h, l, r); }
    case Delete(id) =>
      var x := Find(h.records, id);
      if x.Some? {
        var a, m, b := h.records[..x.value], [h.records[x.value]], h.records[x.value + 1..];
        assert h.records == (a + m) + b;
        NamesConcat(a + m, b);
        NamesConcat(a, m);
        NamesConcat(a, b);
      }
    case TakeId =>
    case Restart =>
    case Heart(_, _) => SameNames(h.records, next.records);
    case Edit(_, _, _) => SameNames(h.records, next.records);
    case Pin(_) => SameNames(h.records, next.records);
  }

  lemma PushNames(h: History, l: Limits, r: Record)
    requires l.messages > 0
    ensures var kept := Names(Apply(h, l, Push(r)).records);
            Names(Dropped(h, l, Push(r))) + kept == Names(h.records) + Names([r]) && Names([r]) <= kept
    ensures Names([r]) == if Stored(r).Some? then {Stored(r).value} else {}
  {
    hide Names;
    var added := r.(id := h.next);
    var all, kept := h.records + [added], Apply(h, l, Push(r)).records;
    assert all == all[..|all| - |kept|] + kept;
    assert kept == kept[..|kept| - 1] + [added];
    NamesConcat(all[..|all| - |kept|], kept);
    NamesConcat(h.records, [added]);
    NamesConcat(kept[..|kept| - 1], [added]);
    NamesOne(r, added);
    NameOfOne(r);
  }

  lemma NoNames()
    ensures Names([]) == {}
  {}

  lemma NameOfOne(r: Record)
    ensures Names([r]) == if Stored(r).Some? then {Stored(r).value} else {}
  {
    assert r in [r];
  }

  lemma SameNames(a: seq<Record>, b: seq<Record>)
    requires |a| == |b| && forall i :: 0 <= i < |a| ==> Stored(a[i]) == Stored(b[i])
    ensures Names(a) == Names(b)
  {
    forall r | r in a && Stored(r).Some? ensures Stored(r).value in Names(b) { NamesSame(b, a, r); }
    forall r | r in b && Stored(r).Some? ensures Stored(r).value in Names(a) { NamesSame(a, b, r); }
  }

  // What an operation puts up for removal is, at that moment, named by no kept record, avatar or icon.
  lemma DiskKeeps(h: History, l: Limits, op: Op, named: set<Hash>, disk: set<Hash>)
    requires Names(h.records) + named <= disk
    requires op.Push? && Stored(op.record).Some? ==> Stored(op.record).value in disk
    ensures var next := Apply(h, l, op);
            Names(next.records) + named <= disk - Orphans(Dropped(h, l, op), next.records, named)
  {
    hide Names, Apply, Dropped;
    forall f | f in Names(Apply(h, l, op).records) ensures f in disk {
      StepNames(h, l, op, f);
    }
  }

  // The hashes of dropped that nothing kept names any more, in order.
  function OrphanList(dropped: seq<Record>, kept: seq<Record>, named: set<Hash>): (gone: seq<Hash>)
    ensures forall f :: f in gone <==> f in Orphans(dropped, kept, named)
  {
    if dropped == [] then
      assert Names([]) == {};
      []
    else
      NamesConcat([dropped[0]], dropped[1..]);
      assert dropped == [dropped[0]] + dropped[1..];
      var rest := OrphanList(dropped[1..], kept, named);
      var f := Stored(dropped[0]);
      NameOfOne(dropped[0]);
      if f.Some? && f.value !in Names(kept) && f.value !in named then [f.value] + rest else rest
  }

  // The file a dropped message puts up for removal: its picture if it has one, otherwise its clip,
  // otherwise nothing.
  lemma DroppedFile(r: Record)
    ensures r.image.Some? ==> OrphanList([r], [], {}) == [r.image.value]
    ensures r.image.None? && r.voice.Some? ==> OrphanList([r], [], {}) == [r.voice.value.hash]
    ensures r.image.None? && r.voice.None? ==> OrphanList([r], [], {}) == []
  {
    NoNames();
    ListNone([]);
    assert [r][1..] == [];
  }

  // ----- files over a run -----

  // The history changes under its lock; the files it dropped are removed after it is released, one by
  // one, whatever happened in between. A profile change or a new icon is followed by a sweep, which
  // judges the files it found on disk. An upload that turns out not to be kept discards its own file.
  datatype Event =
    | Upload(file: Hash)
    | Do(op: Op)
    | Profiles(named: set<Hash>)
    | Sweep(found: set<Hash>)
    | Discard(file: Hash)
    | Remove(file: Hash)

  // named are the files avatars and the icon use, due the removals still to come.
  datatype World = World(h: History, named: set<Hash>, disk: set<Hash>, due: multiset<Hash>)

  function Changed(w: World, l: Limits, e: Event): World {
    match e
    case Upload(f) => w.(disk := w.disk + {f})
    case Do(op) =>
      var next := Apply(w.h, l, op);
      w.(h := next, due := w.due + multiset(OrphanList(Dropped(w.h, l, op), next.records, w.named)))
    case Profiles(named) => w.(named := named)
    case Sweep(found) => w.(due := w.due + multiset(found - Held(w)))
    case Discard(f) => w.(due := w.due + multiset{f})
    case Remove(f) => if f in w.due then w.(disk := w.disk - {f}, due := w.due - multiset{f}) else w
  }

  // The files a record, an avatar or the icon names.
  function Held(w: World): set<Hash> { Names(w.h.records) + w.named }

  const Empty: World := World(History(0, []), {}, {}, multiset{})

  function Lived(events: seq<Event>, l: Limits): World {
    if events == [] then Empty else Changed(Lived(events[..|events| - 1], l), l, events[|events| - 1])
  }

  // How many removals of f an event adds to those still due: a sweep one for a file it found that nothing
  // names, an upload that is not kept one for its own file, a removal that goes through takes one away.
  lemma DueLaw(w: World, l: Limits, e: Event, f: Hash)
    ensures var next := Changed(w, l, e);
            match e
            case Sweep(found) => next.due[f] == w.due[f] + (if f in found && f !in Held(w) then 1 else 0)
            case Discard(g) => next.due[f] == w.due[f] + (if f == g then 1 else 0)
            case Remove(g) => next.due[f] == w.due[f] - (if f == g && f in w.due then 1 else 0)
            case Do(_) => next.due[f] >= w.due[f]
            case _ => next.due[f] == w.due[f]
  {
    hide Names, Apply, Dropped, OrphanList;
  }

  lemma LivedLast(events: seq<Event>, l: Limits, e: Event)
    ensures Lived(events + [e], l) == Changed(Lived(events, l), l, e)
  {
    assert (events + [e])[..|events|] == events;
  }

  // ----- no named file is lost -----

  // What starts to name a file finds it on disk.
  ghost predicate Supplied(w: World, l: Limits, e: Event) {
    match e
    case Do(op) => l.messages > 0 ==> forall f :: NamesFile(op, f) ==> f in w.disk
    case Profiles(named) => named <= w.disk
    case _ => true
  }

  // A removal that is due still finds its file named by nothing.
  predicate Timely(w: World, e: Event) {
    e.Remove? && e.file in w.due ==> e.file !in Held(w)
  }

  lemma StepKeepsIff(w: World, l: Limits, e: Event)
    requires Held(w) <= w.disk
    ensures Held(Changed(w, l, e)) <= Changed(w, l, e).disk <==> Supplied(w, l, e) && Timely(w, e)
  {
    hide Names, Apply, Dropped, OrphanList;
    match e
    case Do(op) =>
      forall f | f in Names(Apply(w.h, l, op).records) && f !in Names(w.h.records)
        ensures NamesFile(op, f) && l.messages > 0
      {
        StepNames(w.h, l, op, f);
        if l.messages == 0 { NothingStored(w.h, l, op); }
      }
      if op.Push? && l.messages > 0 { PushNames(w.h, l, op.record); }
    case _ =>
  }

  lemma NothingStored(h: History, l: Limits, op: Op)
    requires l.messages == 0 && op.Push?
    ensures Apply(h, l, op).records == h.records
  {}

  // At every point of the run every named file is on disk.
  ghost predicate NothingLost(events: seq<Event>, l: Limits) {
    forall i :: 0 <= i <= |events| ==> Held(Lived(events[..i], l)) <= Lived(events[..i], l).disk
  }

  ghost predicate Careful(events: seq<Event>, l: Limits) {
    forall i :: 0 <= i < |events| ==> Supplied(Lived(events[..i], l), l, events[i]) && Timely(Lived(events[..i], l), events[i])
  }

  // Over any interleaving no file that a record, an avatar or the icon names is ever missing exactly when
  // whatever starts to name a file finds it on disk, and every removal finds its file unnamed.
  lemma {:induction false} NothingLostIff(events: seq<Event>, l: Limits)
    ensures NothingLost(events, l) <==> Careful(events, l)
  {
    hide Lived, Changed, Held, Supplied, Timely;
    if events == [] {
      EmptyHolds(l);
      assert events[..0] == [];
    } else {
      var n := |events| - 1;
      var init, e := events[..n], events[n];
      assert events == init + [e] && events[..n + 1] == events;
      assert forall i :: 0 <= i <= n ==> init[..i] == events[..i];
      assert forall i :: 0 <= i < n ==> init[i] == events[i];
      NothingLostIff(init, l);
      LivedLast(init, l, e);
      if NothingLost(init, l) {
        assert init[..n] == init;
        StepKeepsIff(Lived(init, l), l, e);
      }
    }
  }

  lemma EmptyHolds(l: Limits)
    ensures Held(Lived([], l)) <= Lived([], l).disk
  {}

  // ----- nothing dropped is left -----

  predicate Uploaded(events: seq<Event>, f: Hash) { Upload(f) in events }

  // A record has named f since f was last uploaded.
  function Owned(events: seq<Event>, l: Limits, f: Hash): bool {
    if events == [] then false
    else
      var n := |events| - 1;
      f in Names(Lived(events, l).h.records) || (events[n] != Upload(f) && Owned(events[..n], l, f))
  }

  // A removal of f has gone through since f was last uploaded.
  function Taken(events: seq<Event>, l: Limits, f: Hash): bool {
    if events == [] then false
    else
      var n := |events| - 1;
      events[n] != Upload(f)
      && ((events[n] == Remove(f) && f in Lived(events[..n], l).due) || Taken(events[..n], l, f))
  }

  // No avatar and no icon has used f.
  ghost predicate NeverProfile(events: seq<Event>, l: Limits, f: Hash) {
    forall i :: 0 <= i <= |events| ==> f !in Lived(events[..i], l).named
  }

  // A file that records named and none names any more is either gone or still due for removal.
  lemma {:induction false} DroppedIsDue(events: seq<Event>, l: Limits, f: Hash)
    requires NeverProfile(events, l, f)
    ensures var w := Lived(events, l);
            && (f in w.disk <==> Uploaded(events, f) && !Taken(events, l, f))
            && (f in w.disk && Owned(events, l, f) && f !in Names(w.h.records) ==> f in w.due)
  {
    hide Names, Lived, Changed;
    if events == [] {
      NothingYet(l);
      NoNames();
    } else {
      var n := |events| - 1;
      var init, e := events[..n], events[n];
      assert events == init + [e];
      assert forall i :: 0 <= i <= n ==> init[..i] == events[..i];
      DroppedIsDue(init, l, f);
      LivedLast(init, l, e);
      assert init[..n] == init;
      FileStep(Lived(init, l), l, e, f);
    }
  }

  // One event and one file no avatar uses.
  lemma FileStep(w: World, l: Limits, e: Event, f: Hash)
    requires f !in w.named
    ensures var next := Changed(w, l, e);
            && (f in next.disk <==> (e == Upload(f) || f in w.disk) && !(e == Remove(f) && f in w.due))
            && (f in w.due && e != Remove(f) ==> f in next.due)
            && (f in Names(w.h.records) && f !in Names(next.h.records) ==> f in next.due)
  {
    hide Names, Apply, Dropped, OrphanList;
    if e.Do? {
      StepNames(w.h, l, e.op, f);
      var kept := Apply(w.h, l, e.op).records;
      var gone := OrphanList(Dropped(w.h, l, e.op), kept, w.named);
      if f in Names(w.h.records) && f !in Names(kept) {
        assert f in gone && f in multiset(gone);
      }
    }
  }

  // Once no removal of f is due and no named file was lost, f is on disk exactly when it was uploaded
  // and a record names it, or none has and none of its removals went through since.
  lemma DiskHolds(events: seq<Event>, l: Limits, f: Hash)
    requires NeverProfile(events, l, f) && NothingLost(events, l) && f !in Lived(events, l).due
    ensures var w := Lived(events, l);
            f in w.disk <==> Uploaded(events, f) && (f in Names(w.h.records) || (!Owned(events, l, f) && !Taken(events, l, f)))
  {
    hide Names, Lived, Owned, Taken;
    DroppedIsDue(events, l, f);
    assert events[..|events|] == events;
  }

  // ----- two runs that lose a file -----

  ghost predicate At(events: seq<Event>, l: Limits, w: World) { Lived(events, l) == w }

  lemma Then(events: seq<Event>, l: Limits, w: World, e: Event)
    requires At(events, l, w)
    ensures At(events + [e], l, Changed(w, l, e))
  {
    LivedLast(events, l, e);
  }

  // The history's steps in both runs.
  lemma HistorySteps(r: Record, l: Limits)
    requires l.messages > 0
    ensures var one, two := r.(id := 0), r.(id := 1);
            && Apply(History(0, []), l, Push(r)) == History(1, [one]) && Dropped(History(0, []), l, Push(r)) == []
            && Apply(History(1, [one]), l, Delete(0)) == History(1, []) && Dropped(History(1, [one]), l, Delete(0)) == [one]
            && Apply(History(1, []), l, Push(r)) == History(2, [two]) && Dropped(History(1, []), l, Push(r)) == []
  {
    var one, two := r.(id := 0), r.(id := 1);
    assert [] + [one] == [one] && [] + [two] == [two];
    assert Find([one], 0) == Some(0);
    assert [one][..0] + [one][1..] == [];
  }

  // And the whole world's.
  lemma Examples(r: Record, l: Limits, f: Hash, due: multiset<Hash>, disk: set<Hash>)
    requires l.messages > 0 && Stored(r) == Some(f)
    ensures var one, two := r.(id := 0), r.(id := 1);
            && Changed(World(History(0, []), {}, disk, due), l, Do(Push(r))) == World(History(1, [one]), {}, disk, due)
            && Changed(World(History(1, [one]), {}, disk, due), l, Do(Delete(0))) == World(History(1, []), {}, disk, due + multiset{f})
            && Changed(World(History(1, []), {}, disk, due), l, Do(Push(r))) == World(History(2, [two]), {}, disk, due)
            && Names([one]) == Names([two]) == {f}
  {
    hide Apply, Dropped, OrphanList, Names;
    var one, two := r.(id := 0), r.(id := 1);
    HistorySteps(r, l);
    NameOfOne(one);
    NameOfOne(two);
    ListNone([one]);
    ListNone([two]);
    ListOne(one);
    assert due + multiset([]) == due;
  }

  lemma ListNone(kept: seq<Record>)
    ensures OrphanList([], kept, {}) == []
  {}

  lemma ListOne(r: Record)
    requires Stored(r).Some?
    ensures OrphanList([r], [], {}) == [Stored(r).value]
  {
    NoNames();
    ListNone([]);
    assert [r][1..] == [];
  }

  // A file dropped, uploaded and named again before its old removal comes: the removal takes it.
  lemma LateRemovalLoses(r: Record, l: Limits, f: Hash)
    requires l.messages > 0 && Stored(r) == Some(f)
    ensures var events := [Upload(f), Do(Push(r)), Do(Delete(0)), Upload(f), Do(Push(r))];
            && NothingLost(events, l)
            && f in Held(Lived(events + [Remove(f)], l)) && f !in Lived(events + [Remove(f)], l).disk
  {
    hide Lived, Changed, Names, Apply;
    var one, two := r.(id := 0), r.(id := 1);
    var a: seq<Event>, b, c, d, e := [], [Upload(f)], [Upload(f), Do(Push(r))], [Upload(f), Do(Push(r)), Do(Delete(0))],
      [Upload(f), Do(Push(r)), Do(Delete(0)), Upload(f)];
    var last := [Upload(f), Do(Push(r)), Do(Delete(0)), Upload(f), Do(Push(r))];
    assert b == a + [Upload(f)] && c == b + [Do(Push(r))] && d == c + [Do(Delete(0))] && e == d + [Upload(f)] && last == e + [Do(Push(r))];
    Examples(r, l, f, multiset{}, {f});
    Examples(r, l, f, multiset{f}, {f});
    NothingYet(l);
    UploadIs(Empty, l, f);
    UploadIs(World(History(1, []), {}, {f}, multiset{f}), l, f);
    Then(a, l, Empty, Upload(f));
    Then(b, l, World(History(0, []), {}, {f}, multiset{}), Do(Push(r)));
    Then(c, l, World(History(1, [one]), {}, {f}, multiset{}), Do(Delete(0)));
    Then(d, l, World(History(1, []), {}, {f}, multiset{f}), Upload(f));
    Then(e, l, World(History(1, []), {}, {f}, multiset{f}), Do(Push(r)));
    Then(last, l, World(History(2, [two]), {}, {f}, multiset{f}), Remove(f));
    RemoveIs(World(History(2, [two]), {}, {f}, multiset{f}), l, f);
    NoNames();
    forall i | 0 <= i <= |last| ensures Held(Lived(last[..i], l)) <= Lived(last[..i], l).disk {
      assert last[..i] == if i == 0 then a else if i == 1 then b else if i == 2 then c else if i == 3 then d else if i == 4 then e else last;
    }
  }

  // A file uploaded again just before its old removal comes: the message then names a missing file.
  lemma LateMessageLoses(r: Record, l: Limits, f: Hash)
    requires l.messages > 0 && Stored(r) == Some(f)
    ensures var events := [Upload(f), Do(Push(r)), Do(Delete(0)), Upload(f), Remove(f), Do(Push(r))];
            && !Supplied(Lived(events[..5], l), l, events[5])
            && f in Held(Lived(events, l)) && f !in Lived(events, l).disk
  {
    hide Lived, Changed, Names, Apply;
    var one, two := r.(id := 0), r.(id := 1);
    var a: seq<Event>, b, c, d, e := [], [Upload(f)], [Upload(f), Do(Push(r))], [Upload(f), Do(Push(r)), Do(Delete(0))],
      [Upload(f), Do(Push(r)), Do(Delete(0)), Upload(f)];
    var g := [Upload(f), Do(Push(r)), Do(Delete(0)), Upload(f), Remove(f)];
    var last := [Upload(f), Do(Push(r)), Do(Delete(0)), Upload(f), Remove(f), Do(Push(r))];
    assert b == a + [Upload(f)] && c == b + [Do(Push(r))] && d == c + [Do(Delete(0))] && e == d + [Upload(f)];
    assert g == e + [Remove(f)] && last == g + [Do(Push(r))] && last[..5] == g;
    Examples(r, l, f, multiset{}, {f});
    Examples(r, l, f, multiset{}, {});
    NothingYet(l);
    UploadIs(Empty, l, f);
    UploadIs(World(History(1, []), {}, {f}, multiset{f}), l, f);
    RemoveIs(World(History(1, []), {}, {f}, multiset{f}), l, f);
    Then(a, l, Empty, Upload(f));
    Then(b, l, World(History(0, []), {}, {f}, multiset{}), Do(Push(r)));
    Then(c, l, World(History(1, [one]), {}, {f}, multiset{}), Do(Delete(0)));
    Then(d, l, World(History(1, []), {}, {f}, multiset{f}), Upload(f));
    Then(e, l, World(History(1, []), {}, {f}, multiset{f}), Remove(f));
    Then(g, l, World(History(1, []), {}, {}, multiset{}), Do(Push(r)));
    assert NamesFile(Push(r), f);
  }

  lemma NothingYet(l: Limits)
    ensures At([], l, Empty)
  {}

  lemma UploadIs(w: World, l: Limits, f: Hash)
    ensures Changed(w, l, Upload(f)) == w.(disk := w.disk + {f})
  {}

  lemma RemoveIs(w: World, l: Limits, f: Hash)
    requires w.due == multiset{f} && w.disk == {f}
    ensures Changed(w, l, Remove(f)) == w.(disk := {}, due := multiset{})
  {
    assert w.due - multiset{f} == multiset{};
  }
}
