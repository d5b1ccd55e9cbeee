/**
 A directory as the sequence of its 32-byte slots in chain order: scanning it, finding room in
 it, and creating an entry under a long name. Clusters are appended zeroed.
 */
module FatDirectory {
  import opened Wrappers
  import opened Bytes
  import opened FatNames

  // ------------------------------------------------------------ slot kinds

  predicate IsEnd(s: Slot) { s[0] == 0 }
  predicate IsUnused(s: Slot) { s[0] == 0xE5 }
  predicate IsLfn(s: Slot) { s[0] != 0 && s[0] != 0xE5 && s[11] == 15 }

  /** A volume label: attribute bit 3 without the directory bit. */
  predicate IsLabel(s: Slot) { s[0] != 0 && s[0] != 0xE5 && s[11] != 15 && s[11] / 8 % 2 == 1 && s[11] / 16 % 2 == 0 }

  predicate IsShort(s: Slot) { !IsEnd(s) && !IsUnused(s) && !IsLfn(s) && !IsLabel(s) }

  /** lfn_checksum over the eleven name bytes. */
  function Checksum(short: seq<Byte>): Byte {
    if short == [] then 0
    else
      var c: nat := Checksum(short[..|short| - 1]);
      (c * 128 % 256 + c / 2 + short[|short| - 1]) % 256
  }

  // -------------------------------------------------------------------- scan

  /** One entry the scan reports: its name, its slot, and where its long-name slots are. */
  datatype Entry = Entry(name: Name, short: Slot, at: nat, lfns: seq<nat>)

  function Select(slots: seq<Slot>, at: seq<nat>): (r: seq<Slot>)
    requires forall k :: 0 <= k < |at| ==> at[k] < |slots|
    ensures |r| == |at|
  {
    seq(|at|, k requires 0 <= k < |at| => slots[at[k]])
  }

  predicate SumsMatch(pending: seq<Slot>, sum: Byte) {
    forall k :: 0 <= k < |pending| ==> pending[k][13] == sum
  }

  /** decode_lfn_name, or decode_short_name when there is no matching long name. */
  function NameOf(short: Slot, pending: seq<Slot>): Name {
    if pending != [] && SumsMatch(pending, Checksum(short[..11])) then DecodeLfn(pending)
    else DecodeShort(short[..11], short[12])
  }

  /** pending_lfn_state::push. */
  function Push(pending: seq<nat>, i: nat): seq<nat> { if |pending| >= MAX_PIECES then [] else pending + [i] }

  /** scan_directory from slot i on, all entries. */
  function Scan(slots: seq<Slot>, i: nat, pending: seq<nat>): (r: seq<Entry>)
    requires i <= |slots| && forall k :: 0 <= k < |pending| ==> pending[k] < i
    ensures forall k :: 0 <= k < |r| ==> i <= r[k].at < |slots|
    decreases |slots| - i
  {
    if i == |slots| || IsEnd(slots[i]) then []
    else if IsLfn(slots[i]) then Scan(slots, i + 1, Push(pending, i))
    else if IsShort(slots[i]) then
      [Entry(NameOf(slots[i], Select(slots, pending)), slots[i], i, pending)] + Scan(slots, i + 1, [])
    else Scan(slots, i + 1, [])
  }

  // -------------------------------------------------------------- well-formed

  /** Every long-name slot is followed by another or by the short slot it names. */
  ghost predicate NoOrphans(slots: seq<Slot>) {
    forall i :: 0 <= i < |slots| && IsLfn(slots[i]) ==>
      i + 1 < |slots| && (IsLfn(slots[i + 1]) || IsShort(slots[i + 1]))
  }

  /** After the end marker there are only end markers. */
  ghost predicate ZeroTail(slots: seq<Slot>) {
    forall i, j :: 0 <= i < j < |slots| && IsEnd(slots[i]) ==> IsEnd(slots[j])
  }

  /** Where the slots of an entry start. */
  function StartOf(e: Entry): int { e.at - |e.lfns| }

  /** Every entry reports all the long-name slots in front of it. */
  ghost predicate WholeNames(slots: seq<Slot>) {
    forall e :: e in Scan(slots, 0, []) && 0 < StartOf(e) <= |slots| ==> !IsLfn(slots[StartOf(e) - 1])
  }

  ghost predicate WellFormed(slots: seq<Slot>) { ZeroTail(slots) && NoOrphans(slots) && WholeNames(slots) }

  // ------------------------------------------------------------- finding room

  /** The search of allocate_directory_slots after i slots: length of the run of free slots so
      far, and whether the end marker was passed. */
  function RunState(slots: seq<Slot>, i: nat): (r: (nat, bool))
    requires i <= |slots|
    ensures r.0 <= i
  {
    if i == 0 then (0, false)
    else
      var (run, ended) := RunState(slots, i - 1);
      var end := ended || IsEnd(slots[i - 1]);
      if end || IsUnused(slots[i - 1]) then (run + 1, end) else (0, end)
  }

  /** The search stops at the first run of the needed length, which starts at p. */
  ghost predicate FirstRun(slots: seq<Slot>, needed: nat, p: nat) {
    && p + needed <= |slots| && RunState(slots, p + needed).0 == needed
    && forall j :: 0 <= j < p + needed ==> RunState(slots, j).0 < needed
  }

  /** The search over all slots, from the state after i of them on. */
  function FindRun(slots: seq<Slot>, needed: nat, i: nat): (r: Option<nat>)
    requires i <= |slots| && needed > 0 && forall j :: 0 <= j < i ==> RunState(slots, j).0 < needed
    ensures r.Some? ==> FirstRun(slots, needed, r.value)
    ensures r.None? ==> forall j :: 0 <= j <= |slots| ==> RunState(slots, j).0 < needed
    decreases |slots| - i
  {
    if RunState(slots, i).0 >= needed then
      RunGrowsByOne(slots, i);
      Some(i - needed)
    else if i == |slots| then None
    else FindRun(slots, needed, i + 1)
  }

  lemma RunGrowsByOne(slots: seq<Slot>, i: nat)
    requires i <= |slots|
    ensures i > 0 ==> RunState(slots, i).0 <= RunState(slots, i - 1).0 + 1
    ensures i == 0 ==> RunState(slots, i).0 == 0
  {
  }

  predicate IsFree(s: Slot) { IsEnd(s) || IsUnused(s) }

  lemma {:induction false} EndedIff(slots: seq<Slot>, i: nat)
    requires ZeroTail(slots) && i <= |slots|
    ensures RunState(slots, i).1 <==> i > 0 && IsEnd(slots[i - 1])
  {
    if i > 0 { EndedIff(slots, i - 1); }
  }

  /** A run consists of free slots and starts after one that is not. */
  lemma {:induction false} RunIsFree(slots: seq<Slot>, i: nat)
    requires ZeroTail(slots) && i <= |slots|
    ensures var run := RunState(slots, i).0;
            && (forall j :: i - run <= j < i ==> IsFree(slots[j]))
            && (run < i ==> !IsFree(slots[i - run - 1]))
  {
    if i > 0 {
      RunIsFree(slots, i - 1);
      EndedIff(slots, i - 1);
      EndedIff(slots, i);
    }
  }

  // ---------------------------------------------------------------- creating

  /** The slots of a new entry: its long-name slots, then its short slot. */
  function NewSlots(name: Name, short: Slot): (r: seq<Slot>)
    requires Pieces(name) <= MAX_PIECES
    ensures |r| == Pieces(name) + 1
  {
    LfnSlots(name, Checksum(short[..11])) + [short]
  }

  function Created(slots: seq<Slot>, p: nat, news: seq<Slot>): (r: seq<Slot>)
    requires p + |news| <= |slots|
    ensures |r| == |slots|
  {
    slots[..p] + news + slots[p + |news|..]
  }

  /** The entry list with one more entry at its place. */
  function Inserted(es: seq<Entry>, e: Entry): seq<Entry> {
    if es == [] || es[0].at > e.at then [e] + es else [es[0]] + Inserted(es[1..], e)
  }

  lemma {:induction false} InsertedAdds(es: seq<Entry>, e: Entry)
    ensures multiset(Inserted(es, e)) == multiset(es) + multiset{e}
  {
    if es != [] && es[0].at <= e.at {
      assert es == [es[0]] + es[1..];
      InsertedAdds(es[1..], e);
    }
  }

  lemma {:induction false} InsertedMembers(es: seq<Entry>, e: Entry, q: Entry)
    ensures q in Inserted(es, e) <==> q in es || q == e
  {
    if es != [] && es[0].at <= e.at {
      assert es == [es[0]] + es[1..];
      InsertedMembers(es[1..], e, q);
    }
  }

  lemma InsertedBehind(first: Entry, rest: seq<Entry>, e: Entry)
    requires first.at <= e.at
    ensures Inserted([first] + rest, e) == [first] + Inserted(rest, e)
  {
    assert ([first] + rest)[1..] == rest;
  }

  /** Slots from j on agree: so do the scans from there with nothing pending. */
  lemma {:induction false} ScanFrame(a: seq<Slot>, b: seq<Slot>, i: nat, pending: seq<nat>)
    requires |a| == |b| && i <= |a| && (forall k :: 0 <= k < |pending| ==> pending[k] < i)
    requires forall k :: i <= k < |a| ==> a[k] == b[k]
    requires forall k :: 0 <= k < |pending| ==> a[pending[k]] == b[pending[k]]
    ensures Scan(a, i, pending) == Scan(b, i, pending)
    decreases |a| - i
  {
    if i < |a| && !IsEnd(a[i]) {
      assert Select(a, pending) == Select(b, pending);
      if IsLfn(a[i]) {
        ScanFrame(a, b, i + 1, Push(pending, i));
      } else {
        ScanFrame(a, b, i + 1, []);
      }
    }
  }

  /** Over free slots of a zero-tailed directory the scan finds nothing. */
  lemma {:induction false} ScanFree(slots: seq<Slot>, i: nat, n: nat)
    requires ZeroTail(slots) && i + n <= |slots| && forall j :: i <= j < i + n ==> IsFree(slots[j])
    ensures Scan(slots, i, []) == Scan(slots, i + n, [])
    decreases n
  {
    if n > 0 {
      if IsEnd(slots[i]) {
        assert i + n < |slots| ==> IsEnd(slots[i + n]);
      } else {
        ScanFree(slots, i + 1, n - 1);
      }
    }
  }

  /** Indices i, i + 1, ..., n of them. */
  function Upto(i: nat, n: nat): (r: seq<nat>)
    ensures |r| == n && forall k :: 0 <= k < n ==> r[k] == i + k
  {
    seq(n, k requires 0 <= k < n => i + k)
  }

  lemma ScanLfn(slots: seq<Slot>, i: nat, pending: seq<nat>)
    requires i < |slots| && (forall k :: 0 <= k < |pending| ==> pending[k] < i) && IsLfn(slots[i])
    ensures Scan(slots, i, pending) == Scan(slots, i + 1, Push(pending, i))
  {
  }

  lemma ScanShort(slots: seq<Slot>, i: nat, pending: seq<nat>)
    requires i < |slots| && (forall k :: 0 <= k < |pending| ==> pending[k] < i) && IsShort(slots[i])
    ensures Scan(slots, i, pending)
              == [Entry(NameOf(slots[i], Select(slots, pending)), slots[i], i, pending)] + Scan(slots, i + 1, [])
  {
  }

  lemma ScanSkip(slots: seq<Slot>, i: nat, pending: seq<nat>)
    requires i < |slots| && (forall k :: 0 <= k < |pending| ==> pending[k] < i)
    requires !IsEnd(slots[i]) && !IsLfn(slots[i]) && !IsShort(slots[i])
    ensures Scan(slots, i, pending) == Scan(slots, i + 1, [])
  {
  }

  lemma PushUpto(p: nat, k: nat)
    requires k < MAX_PIECES
    ensures Push(Upto(p, k), p + k) == Upto(p, k + 1)
  {
  }

  /** A row of at most 20 long-name slots is gathered. */
  lemma {:induction false} ScanLfns(slots: seq<Slot>, p: nat, k: nat, n: nat)
    requires k <= n <= MAX_PIECES && p + n <= |slots| && forall j :: p <= j < p + n ==> IsLfn(slots[j])
    ensures Scan(slots, p + k, Upto(p, k)) == Scan(slots, p + n, Upto(p, n))
    decreases n - k
  {
    hide Scan, IsLfn, Push;
    if k < n {
      PushUpto(p, k);
      ScanLfn(slots, p + k, Upto(p, k));
      ScanLfns(slots, p, k + 1, n);
    }
  }

  /** At most 20 long-name slots and a short one. */
  predicate EntrySlots(news: seq<Slot>) {
    && 1 <= |news| <= MAX_PIECES + 1 && IsShort(news[|news| - 1])
    && forall k :: 0 <= k < |news| - 1 ==> IsLfn(news[k])
  }

  /** The entry that slots written at p stand for. */
  function EntryOf(news: seq<Slot>, p: nat): Entry
    requires |news| > 0
  {
    var n := |news| - 1;
    Entry(NameOf(news[n], news[..n]), news[n], p + n, Upto(p, n))
  }

  lemma SelectNew(after: seq<Slot>, p: nat, news: seq<Slot>)
    requires |news| > 0 && p + |news| <= |after| && after[p..p + |news|] == news
    ensures Select(after, Upto(p, |news| - 1)) == news[..|news| - 1] && after[p + |news| - 1] == news[|news| - 1]
    ensures forall j :: p <= j < p + |news| ==> after[j] == news[j - p]
  {
    forall j | p <= j < p + |news| ensures after[j] == news[j - p] { assert after[p..p + |news|][j - p] == after[j]; }
  }

  /** The scan over freshly written slots reports that entry and goes on behind it. */
  lemma ScanNew(after: seq<Slot>, p: nat, news: seq<Slot>)
    requires EntrySlots(news) && p + |news| <= |after| && after[p..p + |news|] == news
    ensures Scan(after, p, []) == [EntryOf(news, p)] + Scan(after, p + |news|, [])
  {
    hide NameOf, IsLfn, IsShort, Scan, Select;
    var n := |news| - 1;
    SelectNew(after, p, news);
    assert Upto(p, 0) == [];
    ScanLfns(after, p, 0, n);
    ScanShort(after, p + n, Upto(p, n));
  }

  /** Where a run was found: free slots, after a slot in use. */
  ghost predicate RoomAt(slots: seq<Slot>, p: nat, n: nat) {
    && p + n <= |slots| && n > 0 && (forall j :: p <= j < p + n ==> IsFree(slots[j]))
    && (p > 0 ==> !IsFree(slots[p - 1]))
  }

  /** In front of the room nothing is an end marker, and no long-name slot touches it. */
  lemma BeforeRoom(slots: seq<Slot>, p: nat, n: nat, i: nat)
    requires ZeroTail(slots) && NoOrphans(slots) && RoomAt(slots, p, n) && i < p
    ensures !IsEnd(slots[i]) && (IsLfn(slots[i]) ==> i + 1 < p)
  {
    assert IsFree(slots[p]);
  }

  lemma ScanAtRoom(slots: seq<Slot>, p: nat, news: seq<Slot>)
    requires ZeroTail(slots) && EntrySlots(news) && RoomAt(slots, p, |news|)
    ensures Scan(Created(slots, p, news), p, []) == Inserted(Scan(slots, p, []), EntryOf(news, p))
  {
    hide NameOf, IsLfn, IsShort, Scan, IsFree, ZeroTail;
    var after, q := Created(slots, p, news), p + |news|;
    assert after[p..q] == news;
    assert forall k :: q <= k < |after| ==> after[k] == slots[k];
    ScanNew(after, p, news);
    ScanFree(slots, p, |news|);
    ScanFrame(slots, after, q, []);
  }

  lemma SameBefore(slots: seq<Slot>, p: nat, news: seq<Slot>, i: nat, pending: seq<nat>)
    requires p + |news| <= |slots| && i < p && forall k :: 0 <= k < |pending| ==> pending[k] < i
    ensures Created(slots, p, news)[i] == slots[i] && Select(Created(slots, p, news), pending) == Select(slots, pending)
  {
  }

  lemma {:induction false} ScanCreated(slots: seq<Slot>, p: nat, news: seq<Slot>, i: nat, pending: seq<nat>)
    requires ZeroTail(slots) && NoOrphans(slots) && EntrySlots(news) && RoomAt(slots, p, |news|)
             && p + |news| <= |slots|
    requires |news| > 0 && i <= p && (forall k :: 0 <= k < |pending| ==> pending[k] < i) && (i == p ==> pending == [])
    ensures Scan(Created(slots, p, news), i, pending) == Inserted(Scan(slots, i, pending), EntryOf(news, p))
    decreases p - i
  {
    hide NameOf, EntrySlots, NoOrphans, ZeroTail, RoomAt, IsShort, IsLfn, IsEnd, Scan, Select, Created, Inserted;
    if i == p {
      ScanAtRoom(slots, p, news);
    } else {
      BeforeRoom(slots, p, |news|, i);
      var after := Created(slots, p, news);
      SameBefore(slots, p, news, i, pending);
      if IsLfn(slots[i]) {
        ScanLfn(slots, i, pending);
        ScanLfn(after, i, pending);
        ScanCreated(slots, p, news, i + 1, Push(pending, i));
      } else {
        ScanCreated(slots, p, news, i + 1, []);
        if IsShort(slots[i]) {
          ScanShort(slots, i, pending);
          ScanShort(after, i, pending);
          InsertedBehind(Scan(slots, i, pending)[0], Scan(slots, i + 1, []), EntryOf(news, p));
        } else {
          ScanSkip(slots, i, pending);
          ScanSkip(after, i, pending);
        }
      }
    }
  }

  /** The two invariants of a directory survive, so that the next creation meets them too. */
  lemma CreatedKeeps(slots: seq<Slot>, p: nat, news: seq<Slot>)
    requires ZeroTail(slots) && NoOrphans(slots) && EntrySlots(news) && RoomAt(slots, p, |news|)
    ensures ZeroTail(Created(slots, p, news)) && NoOrphans(Created(slots, p, news))
  {
    hide IsLfn, IsLabel;
    var after := Created(slots, p, news);
    forall i | 0 <= i < |after|
      ensures after[i] == if p <= i < p + |news| then news[i - p] else slots[i]
    {
    }
    forall i | 0 <= i < p ensures !IsEnd(slots[i]) && (IsLfn(slots[i]) ==> i + 1 < p) {
      BeforeRoom(slots, p, |news|, i);
    }
    forall k | 0 <= k < |news| ensures !IsEnd(news[k]) { LfnNotEnd(news[k]); }
    forall i | 0 <= i < |after| && IsLfn(after[i])
      ensures i + 1 < |after| && (IsLfn(after[i + 1]) || IsShort(after[i + 1]))
    {
      if p <= i < p + |news| { ShortNotLfn(news[|news| - 1]); }
    }
  }

  lemma LfnNotEnd(s: Slot)
    ensures IsLfn(s) ==> !IsEnd(s)
  {
  }

  lemma ShortNotLfn(s: Slot)
    ensures IsShort(s) ==> !IsLfn(s)
  {
  }

  lemma FirstRunIsRoom(slots: seq<Slot>, needed: nat, p: nat)
    requires ZeroTail(slots) && needed > 0 && FirstRun(slots, needed, p)
    ensures RoomAt(slots, p, needed)
  {
    RunIsFree(slots, p + needed);
  }

  // -------------------------------------------------------------- main results

  /** The short slot of a new file: alias, archive attribute, case bits, start and size. */
  ghost predicate ShortSlotOf(s: Slot, alias: Name, caseInfo: Byte) {
    s[..11] == alias && s[11] == 32 && s[12] == caseInfo
  }

  lemma LfnSlotKind(order: Byte, units: seq<Unit>, checksum: Byte)
    requires |units| == 13 && order != 0 && order != 0xE5
    ensures IsLfn(LfnSlot(order, units, checksum)) && LfnSlot(order, units, checksum)[13] == checksum
  {
    var s := LfnSlot(order, units, checksum);
    assert s[0] == LfnByte(order, units, checksum, 0) && s[11] == LfnByte(order, units, checksum, 11);
    assert s[13] == LfnByte(order, units, checksum, 13);
  }

  /** The slots written for a long name form one entry whose checksums match. */
  lemma NewSlotsForm(name: Name, short: Slot)
    requires Pieces(name) <= MAX_PIECES && IsShort(short)
    ensures EntrySlots(NewSlots(name, short))
    ensures NewSlots(name, short)[..Pieces(name)] == LfnSlots(name, Checksum(short[..11]))
    ensures SumsMatch(LfnSlots(name, Checksum(short[..11])), Checksum(short[..11]))
  {
    hide LfnSlot, IsLfn, IsShort;
    var sum := Checksum(short[..11]);
    var news, n := NewSlots(name, short), Pieces(name);
    forall k | 0 <= k < n ensures IsLfn(news[k]) && news[k][13] == sum {
      LfnSlotKind(Order(name, n - 1 - k), Piece(name, n - 1 - k), sum);
      assert news[k] == PieceSlot(name, sum, n - 1 - k);
    }
    assert news[..n] == LfnSlots(name, sum);
    forall k | 0 <= k < n ensures LfnSlots(name, sum)[k][13] == sum { assert news[k] == LfnSlots(name, sum)[k]; }
  }

  predicate LongAscii(name: Name) { 1 <= |name| <= 255 && forall i :: 0 <= i < |name| ==> 0 < name[i] < 128 }

  /** They decode to the name. */
  lemma NewSlotsDecode(name: Name, short: Slot, p: nat)
    requires LongAscii(name) && IsShort(short)
    ensures Pieces(name) <= MAX_PIECES && EntrySlots(NewSlots(name, short))
    ensures EntryOf(NewSlots(name, short), p).name == name
  {
    hide LfnSlots, IsShort, DecodeLfn, EntrySlots;
    LongRoundTrip(name, Checksum(short[..11]));
    NewSlotsForm(name, short);
  }

  /**
   Creating a long ASCII name in a directory without orphan long-name slots and with a zeroed
   tail: the scan reports the old entries and exactly one more, under that name.
   */
  lemma CreateLong(slots: seq<Slot>, p: nat, name: Name, short: Slot)
    requires ZeroTail(slots) && NoOrphans(slots) && IsShort(short)
    requires LongAscii(name) && FirstRun(slots, Pieces(name) + 1, p)
    ensures Pieces(name) <= MAX_PIECES
    ensures var news := NewSlots(name, short);
            var after := Created(slots, p, news);
            && ZeroTail(after) && NoOrphans(after) && EntryOf(news, p).name == name
            && Scan(after, 0, []) == Inserted(Scan(slots, 0, []), EntryOf(news, p))
            && multiset(Scan(after, 0, [])) == multiset(Scan(slots, 0, [])) + multiset{EntryOf(news, p)}
  {
    hide Scan, ZeroTail, NoOrphans, RoomAt, EntrySlots, NameOf;
    NewSlotsDecode(name, short, p);
    FirstRunIsRoom(slots, Pieces(name) + 1, p);
    var news := NewSlots(name, short);
    CreatedKeeps(slots, p, news);
    ScanCreated(slots, p, news, 0, []);
    InsertedAdds(Scan(slots, 0, []), EntryOf(news, p));
  }

  /**
   An 8.3 name takes one slot; the new entry carries that name exactly when neither component
   mixes cases and a dot is followed by an extension.
   */
  lemma CreateShort(slots: seq<Slot>, p: nat, name: Name, short: Slot)
    requires ZeroTail(slots) && NoOrphans(slots) && ValidSfn(name)
    requires ShortSlotOf(short, EncodeSfn(name), CaseInfo(name)) && FirstRun(slots, 1, p)
    ensures var after := Created(slots, p, [short]);
            && ZeroTail(after) && NoOrphans(after)
            && Scan(after, 0, []) == Inserted(Scan(slots, 0, []), EntryOf([short], p))
            && (EntryOf([short], p).name == name <==>
                  !Mixed(Base(name)) && !Mixed(Ext(name)) && (HasDot(name) ==> Ext(name) != []))
  {
    ShortRoundTrip(name);
    EncodedIsShort(name, short);
    hide Scan, ZeroTail, NoOrphans, RoomAt, DecodeShort, Mixed, HasDot, EncodeSfn, CaseInfo;
    FirstRunIsRoom(slots, 1, p);
    CreatedKeeps(slots, p, [short]);
    ScanCreated(slots, p, [short], 0, []);
  }

  lemma EncodedIsShort(name: Name, short: Slot)
    requires ValidSfn(name) && ShortSlotOf(short, EncodeSfn(name), CaseInfo(name))
    ensures IsShort(short)
  {
    assert short[0] == short[..11][0] == Upper(Base(name)[0]);
  }
}
