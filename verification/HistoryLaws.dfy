/** What each history operation does to the records, message by message and field by field
    (chat/src/config/messages.rs:182-187, 347-498). */
module HistoryLaws {
  import opened Wrappers
  import opened HistorySpec

  // The index a sorted history has an id at is the only one.
  lemma FoundOnce(records: seq<Record>, id: nat, i: nat)
    requires Sorted(records) && i < |records| && records[i].id == id
    ensures Find(records, id) == Some(i)
    ensures forall j :: 0 <= j < |records| && j != i ==> records[j].id != id
  {
    var f := Find(records, id);
    forall j | 0 <= j < |records| && records[j].id == id ensures j == i {
      SortedUnique(records, i, j);
    }
  }

  // A message may be reworded by its author if it carries no file.
  predicate MayReword(r: Record, name: string) {
    r.username == name && r.image.None? && r.voice.None?
  }

  // After an edit the author's own text message with that id has the new text and is marked; every other
  // message is as it was, where it was.
  lemma EditLaw(h: History, l: Limits, id: nat, name: string, text: string)
    requires Sorted(h.records)
    ensures var after := Apply(h, l, Edit(id, name, text));
            && after.next == h.next && |after.records| == |h.records|
            && forall i :: 0 <= i < |h.records| ==>
                 var r := h.records[i];
                 after.records[i] == if r.id == id && MayReword(r, name) then r.(text := text, edited := true) else r
  {
    if i :| 0 <= i < |h.records| && h.records[i].id == id {
      FoundOnce(h.records, id, i);
    }
  }

  // Toggling a heart takes that name's heart off, keeping the others in order, or puts one at the end; no
  // other field and no other message changes.
  lemma HeartLaw(h: History, l: Limits, id: nat, name: string, i: nat)
    requires Sorted(h.records) && i < |h.records|
    ensures var after, r := Apply(h, l, Heart(id, name)), h.records[i];
            && after.next == h.next && |after.records| == |h.records|
            && (r.id != id ==> after.records[i] == r)
            && (r.id == id ==> after.records[i] == r.(hearts := after.records[i].hearts))
            && (r.id == id && name !in r.hearts ==> after.records[i].hearts == r.hearts + [name])
            && (r.id == id && name in r.hearts ==>
                  exists k :: 0 <= k < |r.hearts| && r.hearts[k] == name && name !in r.hearts[..k]
                              && after.records[i].hearts == r.hearts[..k] + r.hearts[k + 1..])
  {
    hide Toggled;
    if h.records[i].id == id {
      FoundOnce(h.records, id, i);
      var hearts := h.records[i].hearts;
      if name in hearts {
        var k := FirstOf(hearts, name);
        ToggledAt(hearts, name, k);
      } else {
        assert hearts[..|hearts|] == hearts;
        ToggledAt(hearts, name, |hearts|);
      }
    }
  }

  lemma {:induction false} FirstOf(names: seq<string>, name: string) returns (k: nat)
    requires name in names
    ensures k < |names| && names[k] == name && name !in names[..k]
  {
    var n := |names| - 1;
    if name in names[..n] {
      k := FirstOf(names[..n], name);
      assert names[..n][..k] == names[..k];
    } else {
      k := n;
      assert names == names[..n] + [names[n]];
    }
  }

  // A pin flips that one flag, unless it would set it with the pins already full.
  lemma PinLaw(h: History, l: Limits, id: nat)
    requires Sorted(h.records)
    ensures var after := Apply(h, l, Pin(id));
            && after.next == h.next && |after.records| == |h.records|
            && forall i :: 0 <= i < |h.records| ==>
                 var r := h.records[i];
                 after.records[i] == if r.id == id && (r.pinned || Pinned(h.records) < l.pins) then r.(pinned := !r.pinned) else r
  {
    hide Pins;
    PinsArePinned(h.records);
    if i :| 0 <= i < |h.records| && h.records[i].id == id {
      FoundOnce(h.records, id, i);
    }
  }

  // The number of pinned messages.
  function Pinned(records: seq<Record>): nat {
    |set i | 0 <= i < |records| && records[i].pinned|
  }

  lemma {:induction false} PinsArePinned(records: seq<Record>)
    ensures Pins(records) == Pinned(records)
  {
    var all := set i | 0 <= i < |records| && records[i].pinned;
    if records == [] {
      assert all == {};
    } else {
      var n := |records| - 1;
      var init := set i | 0 <= i < n && records[..n][i].pinned;
      PinsArePinned(records[..n]);
      assert all == if records[n].pinned then init + {n} else init;
    }
  }

  // Deleting takes out exactly the message with that id; the others keep their order.
  lemma DeleteLaw(h: History, l: Limits, id: nat)
    requires Sorted(h.records)
    ensures var after := Apply(h, l, Delete(id));
            && after.next == h.next && Sorted(after.records)
            && forall r :: r in after.records <==> r in h.records && r.id != id
  {
    var f := Find(h.records, id);
    if f.Some? {
      var i := f.value;
      FoundOnce(h.records, id, i);
      var a, m, b := h.records[..i], [h.records[i]], h.records[i + 1..];
      assert h.records == (a + m) + b;
      SortedParts(a + m, b);
      SortedParts(a, m);
      SortedJoin(a, b);
      forall r | r in h.records && r.id != id ensures r in a + b {
        assert r in (a + m) + b;
      }
      forall r | r in a + b ensures r in h.records && r.id != id {
        assert h.records[i] in m;
      }
    }
  }

  // A push that is kept adds the message, unmarked, at the end under the next id and drops the oldest ones
  // over the limit; with no limit nothing is kept. Either way the id is used up.
  lemma PushLaw(h: History, l: Limits, r: Record)
    ensures var after := Apply(h, l, Push(r));
            && after.next == h.next + 1
            && (l.messages == 0 ==> after.records == h.records)
            && (l.messages > 0 ==>
                  var all := h.records + [r.(id := h.next)];
                  after.records == all[if |all| > l.messages then |all| - l.messages else 0..])
  {}

  // Handing out an id and restarting keep the records.
  lemma OthersLaw(h: History, l: Limits)
    ensures Apply(h, l, TakeId) == History(h.next + 1, h.records)
    ensures Apply(h, l, Restart).records == h.records
    ensures Apply(h, l, Restart).next == if h.records == [] then 0 else h.records[|h.records| - 1].id + 1
  {}

  // Everything a message shows, one after the other.
  function Shown(r: Record): string {
    r.username + r.text + Joined(r.hearts)
  }

  function Joined(names: seq<string>): string {
    if names == [] then "" else names[0] + Joined(names[1..])
  }

  // The size a page counts for a message is the length of all it shows.
  lemma SizeIsShown(r: Record)
    ensures RecordSize(r) == |Shown(r)|
  {
    HeartsJoined(r.hearts);
  }

  lemma {:induction false} HeartsJoined(hearts: seq<string>)
    ensures HeartSize(hearts) == |Joined(hearts)|
  {
    if hearts != [] {
      var n := |hearts| - 1;
      HeartsJoined(hearts[..n]);
      JoinedLast(hearts[..n], hearts[n]);
      assert hearts == hearts[..n] + [hearts[n]];
    }
  }

  lemma {:induction false} JoinedLast(names: seq<string>, last: string)
    ensures Joined(names + [last]) == Joined(names) + last
  {
    if names == [] {
      assert [last][1..] == [];
    } else {
      assert (names + [last])[1..] == names[1..] + [last];
      JoinedLast(names[1..], last);
    }
  }
}
