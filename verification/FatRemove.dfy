/**
 Removing a directory entry: its short slot and its long-name slots are marked unused.
 */
module FatRemove {
  import opened FatNames
  import opened FatDirectory

  function MarkUnused(s: Slot): (r: Slot)
    ensures IsUnused(r) && r[1..] == s[1..]
  {
    s[0 := 0xE5]
  }

  /** The slots an entry occupies. */
  predicate Occupies(e: Entry, i: nat) { i == e.at || i in e.lfns }

  /** remove_file's slot writes. */
  function Removed(slots: seq<Slot>, e: Entry): (r: seq<Slot>)
    ensures |r| == |slots|
  {
    seq<Slot>(|slots|, i requires 0 <= i < |slots| => if Occupies(e, i) then MarkUnused(slots[i]) else slots[i])
  }

  function Deleted(es: seq<Entry>, at: nat): seq<Entry> {
    if es == [] then [] else if es[0].at == at then es[1..] else [es[0]] + Deleted(es[1..], at)
  }

  lemma {:induction false} DeletedRemovesOne(es: seq<Entry>, e: Entry)
    requires e in es && forall k :: 0 <= k < |es| && es[k].at == e.at ==> es[k] == e
    ensures multiset(Deleted(es, e.at)) + multiset{e} == multiset(es)
  {
    assert es == [es[0]] + es[1..];
    if es[0].at != e.at {
      DeletedRemovesOne(es[1..], e);
    }
  }

  // ------------------------------------------------------- shape of an entry

  /** The long-name slots an entry lists are the slots right in front of it. */
  ghost predicate Shaped(slots: seq<Slot>, i: nat, e: Entry) {
    && |e.lfns| <= MAX_PIECES && |e.lfns| <= e.at < |slots| && i <= e.at
    && e.lfns == Upto(e.at - |e.lfns|, |e.lfns|) && IsShort(slots[e.at]) && e.short == slots[e.at]
    && forall j :: e.at - |e.lfns| <= j < e.at && i <= j ==> IsLfn(slots[j])
  }

  lemma {:induction false} EntryShape(slots: seq<Slot>, i: nat, k: nat, e: Entry)
    requires i <= |slots| && k <= i && k <= MAX_PIECES && e in Scan(slots, i, Upto(i - k, k))
    ensures Shaped(slots, i, e)
    ensures e.at - |e.lfns| == i - k || i <= e.at - |e.lfns|
    ensures k > 0 ==> e.at - |e.lfns| != i
    decreases |slots| - i
  {
    hide NameOf, IsShort, IsLfn, IsEnd, Select, Scan, Push;
    var pending := Upto(i - k, k);
    NotEnd(slots, i, pending, e);
    if IsLfn(slots[i]) {
      ScanLfn(slots, i, pending);
      PushAny(i, k);
      EntryShape(slots, i + 1, if k < MAX_PIECES then k + 1 else 0, e);
    } else {
      assert [] == Upto(i + 1, 0);
      if IsShort(slots[i]) {
        ScanShort(slots, i, pending);
        if e != Scan(slots, i, pending)[0] {
          assert e in Scan(slots, i + 1, []);
          EntryShape(slots, i + 1, 0, e);
        }
      } else {
        ScanSkip(slots, i, pending);
        EntryShape(slots, i + 1, 0, e);
      }
    }
  }

  // ----------------------------------------------------------------- removing

  /** Over marked slots the scan finds nothing. */
  lemma {:induction false} ScanMarked(after: seq<Slot>, i: nat, n: nat, pending: seq<nat>)
    requires i + n <= |after| && n > 0 && (forall k :: 0 <= k < |pending| ==> pending[k] < i)
    requires forall j :: i <= j < i + n ==> IsUnused(after[j])
    ensures Scan(after, i, pending) == Scan(after, i + n, [])
    decreases n
  {
    if n > 1 { ScanMarked(after, i + 1, n - 1, []); }
  }

  /** An entry whose slots start right here: reported first before, and not at all after. */
  lemma RemoveHere(slots: seq<Slot>, i: nat, e: Entry)
    requires i <= |slots| && e in Scan(slots, i, []) && Shaped(slots, i, e) && e.at - |e.lfns| == i
    ensures Scan(Removed(slots, e), i, []) == Deleted(Scan(slots, i, []), e.at)
  {
    hide NameOf, IsShort, IsLfn, Scan, IsUnused;
    var after := Removed(slots, e);
    var news := slots[i..e.at + 1];
    EntrySlotsHere(slots, i, e);
    ScanNew(slots, i, news);
    RemovedSlots(slots, i, e);
    hide Removed;
    ScanMarked(after, i, |news|, []);
    ScanFrame(slots, after, e.at + 1, []);
  }

  lemma EntrySlotsHere(slots: seq<Slot>, i: nat, e: Entry)
    requires Shaped(slots, i, e) && e.at - |e.lfns| == i
    ensures EntrySlots(slots[i..e.at + 1])
  {
    hide IsLfn, IsShort;
  }

  /** The marked slots are those from here up to the entry's own; behind them nothing changes. */
  lemma RemovedSlots(slots: seq<Slot>, i: nat, e: Entry)
    requires Shaped(slots, i, e) && e.at - |e.lfns| == i
    ensures var after := Removed(slots, e);
            && (forall j :: i <= j <= e.at ==> IsUnused(after[j]))
            && (forall j :: e.at < j < |slots| ==> after[j] == slots[j])
  {
    hide IsLfn, IsShort;
    forall j | i <= j <= e.at ensures Occupies(e, j) {
      if j < e.at { assert e.lfns[j - i] == j; }
    }
  }

  lemma SameOutside(slots: seq<Slot>, i: nat, k: nat, e: Entry)
    requires i < |slots| && k <= i && Shaped(slots, i, e) && i < e.at - |e.lfns|
    ensures Removed(slots, e)[i] == slots[i] && Select(Removed(slots, e), Upto(i - k, k))
            == Select(slots, Upto(i - k, k))
  {
  }

  lemma DeletedBehind(first: Entry, rest: seq<Entry>, at: nat)
    requires first.at != at
    ensures Deleted([first] + rest, at) == [first] + Deleted(rest, at)
  {
    assert ([first] + rest)[1..] == rest;
  }

  /** Every directory: the scan after the removal reports the entries but that one. */
  lemma {:induction false} ScanRemoved(slots: seq<Slot>, i: nat, k: nat, e: Entry)
    requires i <= |slots| && k <= i && k <= MAX_PIECES && e in Scan(slots, i, Upto(i - k, k)) && i <= e.at - |e.lfns|
    ensures Scan(Removed(slots, e), i, Upto(i - k, k)) == Deleted(Scan(slots, i, Upto(i - k, k)), e.at)
    decreases |slots| - i
  {
    hide NameOf, IsShort, IsLfn, IsEnd, Select, Scan, Removed, Deleted, Push;
    EntryShape(slots, i, k, e);
    var pending, after := Upto(i - k, k), Removed(slots, e);
    if e.at - |e.lfns| == i {
      assert Upto(i, 0) == [];
      RemoveHere(slots, i, e);
    } else {
      SameOutside(slots, i, k, e);
      if IsLfn(slots[i]) {
        ScanLfn(slots, i, pending);
        ScanLfn(after, i, pending);
        var next := if k < MAX_PIECES then k + 1 else 0;
        PushAny(i, k);
        ScanRemoved(slots, i + 1, next, e);
      } else {
        assert [] == Upto(i + 1, 0);
        NotEnd(slots, i, pending, e);
        if IsShort(slots[i]) {
          ScanShort(slots, i, pending);
          ScanShort(after, i, pending);
          ScanRemoved(slots, i + 1, 0, e);
          DeletedBehind(Scan(slots, i, pending)[0], Scan(slots, i + 1, []), e.at);
        } else {
          ScanSkip(slots, i, pending);
          ScanSkip(after, i, pending);
          ScanRemoved(slots, i + 1, 0, e);
        }
      }
    }
  }

  lemma NotEnd(slots: seq<Slot>, i: nat, pending: seq<nat>, e: Entry)
    requires i <= |slots| && (forall k :: 0 <= k < |pending| ==> pending[k] < i) && e in Scan(slots, i, pending)
    ensures i < |slots| && !IsEnd(slots[i])
  {
  }

  lemma PushAny(i: nat, k: nat)
    requires k <= i && k <= MAX_PIECES
    ensures Push(Upto(i - k, k), i) == if k < MAX_PIECES then Upto(i + 1 - (k + 1), k + 1) else Upto(i + 1, 0)
  {
    if k < MAX_PIECES { PushUpto(i - k, k); }
  }

  lemma {:induction false} PlacesDiffer(slots: seq<Slot>, i: nat, pending: seq<nat>)
    requires i <= |slots| && forall k :: 0 <= k < |pending| ==> pending[k] < i
    ensures forall a, b :: 0 <= a < b < |Scan(slots, i, pending)| ==>
              Scan(slots, i, pending)[a].at < Scan(slots, i, pending)[b].at
    decreases |slots| - i
  {
    if i < |slots| && !IsEnd(slots[i]) {
      if IsLfn(slots[i]) { PlacesDiffer(slots, i + 1, Push(pending, i)); } else { PlacesDiffer(slots, i + 1, []); }
    }
  }

  /** remove_file on any directory takes away exactly the entry it names. */
  lemma RemoveListsTheRest(slots: seq<Slot>, e: Entry)
    requires e in Scan(slots, 0, [])
    ensures Scan(Removed(slots, e), 0, []) == Deleted(Scan(slots, 0, []), e.at)
    ensures multiset(Scan(Removed(slots, e), 0, [])) + multiset{e} == multiset(Scan(slots, 0, []))
  {
    hide Scan, Removed;
    assert Upto(0, 0) == [];
    EntryShape(slots, 0, 0, e);
    ScanRemoved(slots, 0, 0, e);
    PlacesDiffer(slots, 0, []);
    DeletedRemovesOne(Scan(slots, 0, []), e);
  }
}
