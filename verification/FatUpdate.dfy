/**
 Rewriting the short slot of an entry in place, and what creation, removal and rewriting do to
 the conditions on a directory.
 */
module FatUpdate {
  import opened FatNames
  import opened FatDirectory
  import opened FatRemove

  // ----------------------------------------------------------------- rewriting

  function Replaced(es: seq<Entry>, at: nat, e: Entry): seq<Entry> {
    if es == [] then [] else if es[0].at == at then [e] + es[1..] else [es[0]] + Replaced(es[1..], at, e)
  }

  lemma ReplacedBehind(first: Entry, rest: seq<Entry>, at: nat, e: Entry)
    requires first.at != at
    ensures Replaced([first] + rest, at, e) == [first] + Replaced(rest, at, e)
  {
    assert ([first] + rest)[1..] == rest;
  }

  /** The entry with another short slot. */
  function Rewritten(slots: seq<Slot>, e: Entry, s: Slot): Entry
    requires forall k :: 0 <= k < |e.lfns| ==> e.lfns[k] < |slots|
  {
    Entry(NameOf(s, Select(slots, e.lfns)), s, e.at, e.lfns)
  }

  lemma SameElsewhere(slots: seq<Slot>, at: nat, s: Slot, i: nat, k: nat)
    requires k <= i <= at < |slots|
    ensures Select(slots[at := s], Upto(i - k, k)) == Select(slots, Upto(i - k, k))
    ensures i < at ==> slots[at := s][i] == slots[i]
  {
  }

  /** The rewritten slot comes next. */
  lemma RewriteHere(slots: seq<Slot>, i: nat, k: nat, e: Entry, s: Slot)
    requires k <= i < |slots| && IsShort(slots[i]) && IsShort(s) && e.at == i && e in Scan(slots, i, Upto(i - k, k))
    ensures e.lfns == Upto(i - k, k)
    ensures Scan(slots[i := s], i, Upto(i - k, k)) == Replaced(Scan(slots, i, Upto(i - k, k)), i,
                                                               Rewritten(slots, e, s))
  {
    hide NameOf, IsShort, Scan, Select;
    var pending, after := Upto(i - k, k), slots[i := s];
    ScanShort(slots, i, pending);
    ScanShort(after, i, pending);
    SameElsewhere(slots, i, s, i, k);
    ScanFrame(slots, after, i + 1, []);
  }

  /** Every directory: after the rewrite the scan reports the same entries, that one rewritten. */
  lemma {:induction false} ScanRewritten(slots: seq<Slot>, i: nat, k: nat, e: Entry, s: Slot)
    requires i <= |slots| && k <= i && k <= MAX_PIECES && e in Scan(slots, i, Upto(i - k, k)) && IsShort(s)
    ensures e.at < |slots| && forall j :: 0 <= j < |e.lfns| ==> e.lfns[j] < |slots|
    ensures Scan(slots[e.at := s], i, Upto(i - k, k)) == Replaced(Scan(slots, i, Upto(i - k, k)), e.at,
                                                                  Rewritten(slots, e, s))
    decreases |slots| - i
  {
    hide NameOf, IsShort, IsLfn, IsEnd, Select, Scan, Replaced, Push;
    EntryShape(slots, i, k, e);
    var pending, after := Upto(i - k, k), slots[e.at := s];
    NotEnd(slots, i, pending, e);
    if e.at == i {
      RewriteHere(slots, i, k, e, s);
    } else {
      SameElsewhere(slots, e.at, s, i, k);
      if IsLfn(slots[i]) {
        ScanLfn(slots, i, pending);
        ScanLfn(after, i, pending);
        PushAny(i, k);
        ScanRewritten(slots, i + 1, if k < MAX_PIECES then k + 1 else 0, e, s);
      } else {
        assert [] == Upto(i + 1, 0);
        if IsShort(slots[i]) {
          ScanShort(slots, i, pending);
          ScanShort(after, i, pending);
          ScanRewritten(slots, i + 1, 0, e, s);
          ReplacedBehind(Scan(slots, i, pending)[0], Scan(slots, i + 1, []), e.at, Rewritten(slots, e, s));
        } else {
          ScanSkip(slots, i, pending);
          ScanSkip(after, i, pending);
          ScanRewritten(slots, i + 1, 0, e, s);
        }
      }
    }
  }

  lemma {:induction false} ReplacedMembers(es: seq<Entry>, was: Entry, e: Entry, q: Entry)
    requires was in es && e.at == was.at && forall k :: 0 <= k < |es| && es[k].at == was.at ==> es[k] == was
    requires forall a, b :: 0 <= a < b < |es| ==> es[a].at < es[b].at
    ensures q in Replaced(es, was.at, e) <==> (q in es && q.at != was.at) || q == e
  {
    assert es == [es[0]] + es[1..];
    if es[0].at != was.at {
      ReplacedMembers(es[1..], was, e, q);
    } else {
      if q in es[1..] { assert q.at != was.at; }
    }
  }

  lemma {:induction false} DeletedMembers(es: seq<Entry>, e: Entry, q: Entry)
    requires e in es && forall a, b :: 0 <= a < b < |es| ==> es[a].at < es[b].at
    ensures q in Deleted(es, e.at) <==> q in es && q.at != e.at
  {
    assert es == [es[0]] + es[1..];
    if es[0].at != e.at { DeletedMembers(es[1..], e, q); }
  }

  // ------------------------------------------------------ directory conditions

  /** The scan from the start, and its order. */
  lemma ScanOrder(slots: seq<Slot>)
    ensures Upto(0, 0) == []
    ensures forall a, b :: 0 <= a < b < |Scan(slots, 0, [])| ==> Scan(slots, 0, [])[a].at < Scan(slots, 0, [])[b].at
    ensures forall e :: e in Scan(slots, 0, []) ==> Shaped(slots, 0, e)
  {
    hide Scan;
    PlacesDiffer(slots, 0, []);
    assert Upto(0, 0) == [];
    forall e | e in Scan(slots, 0, []) ensures Shaped(slots, 0, e) { EntryShape(slots, 0, 0, e); }
  }

  /** Nothing of an entry lies in free room, and no long-name slot in front of it appears there. */
  lemma StartBesideRoom(slots: seq<Slot>, p: nat, news: seq<Slot>, q: Entry)
    requires EntrySlots(news) && RoomAt(slots, p, |news|) && Shaped(slots, 0, q) && 0 < StartOf(q)
             && !IsLfn(slots[StartOf(q) - 1])
    ensures !IsLfn(Created(slots, p, news)[StartOf(q) - 1])
  {
    hide IsLfn, IsShort, IsFree;
    var j := StartOf(q) - 1;
    assert IsLfn(slots[j + 1]) || IsShort(slots[j + 1]);
    FreeOrUsed(slots[j + 1]);
    if p <= j < p + |news| - 1 {
      assert false;
    } else if j == p + |news| - 1 {
      ShortNotLfn(news[|news| - 1]);
    }
  }

  lemma FreeOrUsed(s: Slot)
    ensures IsFree(s) ==> !IsLfn(s) && !IsShort(s)
  {
  }

  lemma CreatedWell(slots: seq<Slot>, p: nat, news: seq<Slot>)
    requires WellFormed(slots) && EntrySlots(news) && RoomAt(slots, p, |news|)
    ensures WellFormed(Created(slots, p, news))
    ensures Scan(Created(slots, p, news), 0, []) == Inserted(Scan(slots, 0, []), EntryOf(news, p))
  {
    hide Scan, ZeroTail, NoOrphans, RoomAt, EntrySlots, Inserted, IsLfn, Shaped, NameOf;
    CreatedKeeps(slots, p, news);
    ScanCreatedAll(slots, p, news);
    ScanOrder(slots);
    var after := Created(slots, p, news);
    forall q | q in Scan(after, 0, []) && 0 < StartOf(q) <= |after| ensures !IsLfn(after[StartOf(q) - 1]) {
      InsertedMembers(Scan(slots, 0, []), EntryOf(news, p), q);
      if q in Scan(slots, 0, []) {
        StartBesideRoom(slots, p, news, q);
      } else {
        BeforeRoom(slots, p, |news|, p - 1);
        SameBefore(slots, p, news, p - 1, []);
      }
    }
  }

  lemma ScanCreatedAll(slots: seq<Slot>, p: nat, news: seq<Slot>)
    requires ZeroTail(slots) && NoOrphans(slots) && EntrySlots(news) && RoomAt(slots, p, |news|)
    ensures |news| > 0 && p + |news| <= |slots|
    ensures Scan(Created(slots, p, news), 0, []) == Inserted(Scan(slots, 0, []), EntryOf(news, p))
  {
    hide Scan, ZeroTail, NoOrphans, NameOf, Inserted;
    ScanCreated(slots, p, news, 0, []);
  }

  lemma RewrittenKeeps(slots: seq<Slot>, at: nat, s: Slot)
    requires ZeroTail(slots) && NoOrphans(slots) && at < |slots| && IsShort(slots[at]) && IsShort(s)
    ensures ZeroTail(slots[at := s]) && NoOrphans(slots[at := s])
  {
    ShortNotLfn(s);
  }

  lemma RewrittenWell(slots: seq<Slot>, e: Entry, s: Slot)
    requires WellFormed(slots) && e in Scan(slots, 0, []) && IsShort(s)
    ensures e.at < |slots| && forall j :: 0 <= j < |e.lfns| ==> e.lfns[j] < |slots|
    ensures WellFormed(slots[e.at := s])
    ensures Scan(slots[e.at := s], 0, []) == Replaced(Scan(slots, 0, []), e.at, Rewritten(slots, e, s))
  {
    hide Scan, ZeroTail, NoOrphans, NameOf, IsLfn, IsShort, Replaced;
    ScanOrder(slots);
    ScanRewritten(slots, 0, 0, e, s);
    RewrittenKeeps(slots, e.at, s);
    ShortNotLfn(s);
    var after, es := slots[e.at := s], Scan(slots, 0, []);
    forall q | q in Scan(after, 0, []) && 0 < StartOf(q) <= |after| ensures !IsLfn(after[StartOf(q) - 1]) {
      ReplacedMembers(es, e, Rewritten(slots, e, s), q);
      assert StartOf(Rewritten(slots, e, s)) == StartOf(e);
    }
  }

  lemma RemovedKeeps(slots: seq<Slot>, e: Entry)
    requires WellFormed(slots) && e in Scan(slots, 0, []) && Shaped(slots, 0, e)
    ensures ZeroTail(Removed(slots, e)) && NoOrphans(Removed(slots, e))
  {
    hide Scan, IsShort;
    var after := Removed(slots, e);
    forall i | 0 <= i < |slots| ensures Occupies(e, i) <==> StartOf(e) <= i <= e.at {
      if StartOf(e) <= i < e.at { assert e.lfns[i - StartOf(e)] == i; }
    }
    forall i | 0 <= i < |after| && IsLfn(after[i])
      ensures i + 1 < |after| && (IsLfn(after[i + 1]) || IsShort(after[i + 1]))
    {
      assert after[i] == slots[i];
      assert i + 1 != StartOf(e);
    }
    forall i, j | 0 <= i < j < |after| && IsEnd(after[i]) ensures IsEnd(after[j]) {
      assert after[i] == slots[i];
      EndNotUsed(slots[j]);
    }
  }

  lemma EndNotUsed(s: Slot)
    ensures IsEnd(s) ==> !IsLfn(s) && !IsShort(s)
  {
  }

  lemma RemovedWell(slots: seq<Slot>, e: Entry)
    requires WellFormed(slots) && e in Scan(slots, 0, [])
    ensures WellFormed(Removed(slots, e)) && Scan(Removed(slots, e), 0, []) == Deleted(Scan(slots, 0, []), e.at)
  {
    hide Scan, ZeroTail, NoOrphans, Deleted, Removed;
    ScanOrder(slots);
    RemoveListsTheRest(slots, e);
    RemovedKeeps(slots, e);
    var after, es := Removed(slots, e), Scan(slots, 0, []);
    forall q | q in Scan(after, 0, []) && 0 < StartOf(q) <= |after| ensures !IsLfn(after[StartOf(q) - 1]) {
      DeletedMembers(es, e, q);
      RemovedSlot(slots, e, StartOf(q) - 1);
    }
  }

  lemma RemovedSlot(slots: seq<Slot>, e: Entry, i: nat)
    requires i < |slots|
    ensures IsLfn(Removed(slots, e)[i]) ==> IsLfn(slots[i])
  {
  }
}
