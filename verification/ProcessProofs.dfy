/**
 What every run of brk, mmap, munmap and mprotect keeps: the heap records tile the mapped
 heap, every record's pages lead to its own frames, ranges and frame blocks never overlap, and
 the frames held are exactly those of the live records.
 */
module ProcessProofs {
  import opened ProcessModel

  // --------------------------------------------------------------- invariant

  predicate Holds(r: Rec, p: nat) { r.user / 4096 <= p < (r.user + r.size) / 4096 }

  /** Every page of the record leads to its own frame of the record's block. */
  ghost predicate Mapped(pages: map<nat, Frame>, r: Rec) {
    forall p: nat :: Holds(r, p) ==> p in pages && pages[p].phys == r.raw + (p * 4096 - r.user)
  }

  predicate RecShape(r: Rec) {
    && r.fromPhys && r.size > 0 && r.user % 4096 == 0 && r.size % 4096 == 0 && r.raw % 4096 == 0
    && 0 < r.raw < CEILING
  }

  predicate Placed(s: State, r: Rec) {
    || (s.brkBase <= r.user && r.user + r.size <= s.mappedEnd)
    || (MMAP_BASE <= r.user && r.user + r.size <= s.mapNext)
  }

  ghost predicate RecOk(s: State, r: Rec) {
    RecShape(r) && Placed(s, r) && Mapped(s.pages, r) && r.raw in s.held && r.size <= s.held[r.raw]
  }

  predicate Apart(r: Rec, q: Rec) {
    (r.user + r.size <= q.user || q.user + q.size <= r.user) && r.raw != q.raw
  }

  ghost predicate Pairwise(records: seq<Rec>) {
    forall i, j :: 0 <= i < j < |records| ==> Apart(records[i], records[j])
  }

  ghost predicate CoveredAt(records: seq<Rec>, p: nat) { exists r :: r in records && Holds(r, p) }

  ghost predicate Owned(records: seq<Rec>, b: nat) { exists r :: r in records && r.raw == b }

  /** Blocks given out lie below the ceiling and do not overlap. */
  ghost predicate BlocksOk(held: map<nat, nat>) {
    && (forall b :: b in held ==> 0 < b && 0 < held[b] && b + held[b] <= CEILING)
    && (forall a, b :: a in held && b in held && a != b ==> a + held[a] <= b || b + held[b] <= a)
  }

  predicate Bounds(s: State) {
    && HEAP_BASE <= s.brkBase <= s.mappedEnd <= MMAP_BASE <= s.mapNext <= MAP_LIMIT
    && s.brkBase % 4096 == 0 && s.mappedEnd % 4096 == 0 && s.mapNext % 4096 == 0
  }

  ghost predicate Records(s: State) {
    (forall r :: r in s.records ==> RecOk(s, r)) && Pairwise(s.records)
  }

  ghost predicate Covered(records: seq<Rec>, base: nat, end: nat) {
    forall p :: base / 4096 <= p < end / 4096 ==> CoveredAt(records, p)
  }

  ghost predicate FramesOwned(records: seq<Rec>, held: map<nat, nat>) {
    BlocksOk(held) && forall b :: b in held ==> Owned(records, b)
  }

  /** What also holds inside the shrink loop. */
  ghost predicate Core(s: State) {
    Bounds(s) && Records(s) && Covered(s.records, s.brkBase, s.mappedEnd) && FramesOwned(s.records, s.held)
  }

  ghost predicate Inv(s: State) {
    Core(s) && s.brkBase <= s.brkCurrent < MMAP_BASE && s.mappedEnd == PageUp(s.brkCurrent)
  }

  lemma InitialInv()
    ensures Inv(Initial())
  {
  }

  // ------------------------------------------------------------ record lists

  lemma WithoutMembers(records: seq<Rec>, i: nat)
    requires i < |records| && Pairwise(records) && forall r :: r in records ==> RecShape(r)
    ensures Pairwise(Without(records, i))
    ensures forall q :: q in Without(records, i) ==> q in records && Apart(q, records[i])
    ensures forall q :: q in records && q != records[i] ==> q in Without(records, i)
  {
    var rest := Without(records, i);
    forall q | q in rest ensures q in records && Apart(q, records[i]) {
      var j :| 0 <= j < |rest| && rest[j] == q;
      assert q == records[if j < i then j else j + 1];
    }
    forall q | q in records && q != records[i] ensures q in rest {
      var j :| 0 <= j < |records| && records[j] == q;
      assert q == rest[if j < i then j else j - 1];
    }
  }

  /** A record on the list is apart from the others. */
  lemma ApartFrom(records: seq<Rec>, i: nat, q: Rec)
    requires i < |records| && Pairwise(records) && q in records && q != records[i]
    ensures Apart(q, records[i])
  {
    var j :| 0 <= j < |records| && records[j] == q;
    assert j < i || i < j;
  }

  /** A change of pages outside a record leaves it mapped. */
  lemma StaysMapped(pages: map<nat, Frame>, after: map<nat, Frame>, r: Rec)
    requires Mapped(pages, r)
    requires forall p: nat :: Holds(r, p) && p in pages ==> p in after && after[p].phys == pages[p].phys
    ensures Mapped(after, r)
  {
  }

  // --------------------------------------------------------- pages come and go

  /** A page range [virt, virt + bytes) that meets no record. */
  ghost predicate FreeRange(records: seq<Rec>, virt: nat, bytes: nat) {
    forall q :: q in records ==> q.user + q.size <= virt || virt + bytes <= q.user
  }

  /** Only pages of a free range changed: the core invariant does not notice. */
  lemma StrayPages(s: State, t: State, virt: nat, bytes: nat)
    requires Core(s) && t == s.(pages := t.pages) && FreeRange(s.records, virt, bytes) && virt % 4096 == 0
             && bytes % 4096 == 0
    requires forall p :: p in s.pages && !(virt / 4096 <= p < (virt + bytes) / 4096) ==>
               p in t.pages && t.pages[p].phys == s.pages[p].phys
    ensures Core(t)
  {
    forall r | r in t.records ensures RecOk(t, r) {
      assert RecOk(s, r);
      StaysMapped(s.pages, t.pages, r);
    }
  }

  // ------------------------------------------------------------------- adding

  ghost predicate ValidGrant(s: State, bytes: nat, grant: Grant) {
    grant.Frames? && PageCount(bytes) > 0 ==>
      && grant.phys % 4096 == 0 && 0 < grant.phys && grant.phys + PageCount(bytes) * 4096 <= CEILING
      && forall b :: b in s.held ==> b + s.held[b] <= grant.phys || grant.phys + PageCount(bytes) * 4096 <= b
  }

  /** The state with a new record, its pages mapped and its frames held. */
  function Added(s: State, r: Rec, flags: nat): State {
    s.(records := [r] + s.records,
       pages := MapRange(s.pages, r.user / 4096, r.size / 4096, r.raw, flags),
       held := s.held[r.raw := r.size])
  }

  lemma AddedMapped(s: State, r: Rec, flags: nat)
    requires RecShape(r)
    ensures Mapped(Added(s, r, flags).pages, r)
  {
    var pages := Added(s, r, flags).pages;
    forall p: nat | Holds(r, p) ensures p in pages && pages[p].phys == r.raw + (p * 4096 - r.user) { }
  }

  /** The new record's range lies at the growing end of the heap or of the mmap area. */
  lemma AddKeeps(s: State, t: State, r: Rec, flags: nat)
    requires Core(s) && RecShape(r) && FreeRange(s.records, r.user, r.size) && Fits32(r.size)
    requires ValidGrant(s, r.size, Grant.Frames(r.raw, 0, true))
    requires t == Added(s, r, flags).(mappedEnd := t.mappedEnd, mapNext := t.mapNext, brkCurrent := t.brkCurrent)
    requires || (r.user == s.mappedEnd && t.mappedEnd == r.user + r.size && t.mapNext == s.mapNext)
             || (MMAP_BASE <= r.user && s.mapNext <= r.user && t.mapNext == r.user + r.size
                 && t.mappedEnd == s.mappedEnd)
    requires Bounds(t)
    ensures Core(t)
  {
    hide Mapped, Pairwise, Covered, FramesOwned;
    GrantedBlock(s, r.raw, r.size);
    GrantIsNew(s, r.raw, r.size);
    forall q | q in t.records ensures RecOk(t, q) {
      if q == r {
        AddedMapped(s, r, flags);
      } else {
        assert RecOk(s, q);
        AddRecOk(s, t, r, q, flags);
      }
    }
    AddPairwise(s, t, r);
    AddCovers(s, t, r);
    AddFrames(s, t, r);
  }

  lemma AddFrames(s: State, t: State, r: Rec)
    requires FramesOwned(s.records, s.held) && t.records == [r] + s.records && t.held == s.held[r.raw := r.size]
    requires RecShape(r) && r.raw + r.size <= CEILING
    requires forall b :: b in s.held ==> b + s.held[b] <= r.raw || r.raw + r.size <= b
    ensures FramesOwned(t.records, t.held)
  {
    NewBlock(s.held, r.raw, r.size);
    hide BlocksOk;
    forall b | b in t.held ensures Owned(t.records, b) {
      if b == r.raw {
        assert r in t.records;
      } else {
        assert Owned(s.records, b);
        var q :| q in s.records && q.raw == b;
        assert q in t.records;
      }
    }
  }

  lemma NewBlock(held: map<nat, nat>, raw: nat, size: nat)
    requires BlocksOk(held) && 0 < raw && 0 < size && raw + size <= CEILING
    requires forall b :: b in held ==> b + held[b] <= raw || raw + size <= b
    ensures BlocksOk(held[raw := size])
  {
  }

  /** With a page count that fits, the block is as long as the request. */
  lemma GrantedBlock(s: State, raw: nat, size: nat)
    requires Fits32(size) && size % 4096 == 0 && size > 0 && ValidGrant(s, size, Grant.Frames(raw, 0, true))
    ensures PageCount(size) > 0 && PageCount(size) * 4096 == size
    ensures raw + size <= CEILING && forall b :: b in s.held ==> b + s.held[b] <= raw || raw + size <= b
  {
  }

  /** A granted block is not held yet. */
  lemma GrantIsNew(s: State, phys: nat, bytes: nat)
    requires FramesOwned(s.records, s.held) && PageCount(bytes) > 0 && ValidGrant(s, bytes, Grant.Frames(phys, 0, true))
    ensures phys !in s.held
  {
  }

  lemma AddRecOk(s: State, t: State, r: Rec, q: Rec, flags: nat)
    requires RecOk(s, q) && RecShape(r) && (q.user + q.size <= r.user || r.user + r.size <= q.user)
    requires s.mappedEnd <= t.mappedEnd && s.mapNext <= t.mapNext && t.brkBase == s.brkBase
    requires t.pages == Added(s, r, flags).pages && t.held == s.held[r.raw := r.size] && r.raw !in s.held
    ensures RecOk(t, q)
  {
    StaysMapped(s.pages, t.pages, q);
  }

  lemma AddPairwise(s: State, t: State, r: Rec)
    requires Records(s) && t.records == [r] + s.records && FreeRange(s.records, r.user, r.size) && r.raw !in s.held
    ensures Pairwise(t.records)
  {
    forall i, j | 0 <= i < j < |t.records| ensures Apart(t.records[i], t.records[j]) {
      assert t.records[j] == s.records[j - 1];
      if i == 0 {
        assert RecOk(s, s.records[j - 1]);
      } else {
        assert t.records[i] == s.records[i - 1];
      }
    }
  }

  lemma AddCovers(s: State, t: State, r: Rec)
    requires Covered(s.records, s.brkBase, s.mappedEnd) && Bounds(s) && RecShape(r) && t.records == [r] + s.records
             && t.brkBase == s.brkBase
    requires t.mappedEnd == s.mappedEnd || (r.user == s.mappedEnd && t.mappedEnd == r.user + r.size)
    ensures Covered(t.records, t.brkBase, t.mappedEnd)
  {
    forall p | t.brkBase / 4096 <= p < t.mappedEnd / 4096 ensures CoveredAt(t.records, p) {
      if p < s.mappedEnd / 4096 {
        assert CoveredAt(s.records, p);
        var q :| q in s.records && Holds(q, p);
        assert q in t.records;
      } else {
        assert r in t.records && Holds(r, p);
      }
    }
  }

  // ----------------------------------------------------------------- dropping

  /** Record i is gone, its pages unmapped and its block freed. */
  ghost predicate Dropped(s: State, i: nat, t: State)
    requires i < |s.records|
  {
    var r := s.records[i];
    && t == UnmapAndFree(s.(records := Without(s.records, i), mappedEnd := t.mappedEnd), r.user, r.size, r.raw)
    && if r.user >= MMAP_BASE then t.mappedEnd == s.mappedEnd
       else t.mappedEnd == r.user && r.user + r.size == s.mappedEnd
  }

  lemma DropRecOk(s: State, t: State, r: Rec, q: Rec)
    requires RecOk(s, q) && RecOk(s, r) && Apart(q, r) && Bounds(s) && t.brkBase == s.brkBase && t.mapNext == s.mapNext
    requires t.pages == UnmapRange(s.pages, r.user / 4096, r.size / 4096) && t.held == s.held - {r.raw}
    requires if r.user >= MMAP_BASE then t.mappedEnd == s.mappedEnd
             else t.mappedEnd == r.user && r.user + r.size == s.mappedEnd
    ensures RecOk(t, q)
  {
    StaysMapped(s.pages, t.pages, q);
  }

  lemma DropCovers(s: State, t: State, i: nat)
    requires i < |s.records| && Core(s) && Dropped(s, i, t)
    ensures Covered(t.records, t.brkBase, t.mappedEnd)
  {
    hide Pairwise, Mapped, FramesOwned;
    assert Pairwise(s.records) && forall q :: q in s.records ==> RecOk(s, q);
    WithoutMembers(s.records, i);
    forall p | t.brkBase / 4096 <= p < t.mappedEnd / 4096 ensures CoveredAt(t.records, p) {
      assert CoveredAt(s.records, p);
      var q :| q in s.records && Holds(q, p);
      assert q != s.records[i];
      assert q in t.records;
    }
  }

  lemma DropFrames(s: State, t: State, i: nat)
    requires i < |s.records| && Core(s) && Dropped(s, i, t)
    ensures FramesOwned(t.records, t.held)
  {
    hide Pairwise, Mapped, Covered;
    assert Pairwise(s.records) && forall q :: q in s.records ==> RecOk(s, q);
    WithoutMembers(s.records, i);
    BlocksMinus(s.held, s.records[i].raw);
    hide BlocksOk, RecOk;
    forall b | b in t.held ensures Owned(t.records, b) {
      assert Owned(s.records, b);
      var q :| q in s.records && q.raw == b;
      assert q in t.records;
    }
  }

  lemma BlocksMinus(held: map<nat, nat>, b: nat)
    requires BlocksOk(held)
    ensures BlocksOk(held - {b})
  {
  }

  lemma DropKeeps(s: State, t: State, i: nat)
    requires i < |s.records| && Core(s) && Dropped(s, i, t)
    ensures Core(t)
  {
    DropCovers(s, t, i);
    DropFrames(s, t, i);
    var r := s.records[i];
    assert RecOk(s, r) && forall q :: q in s.records ==> RecOk(s, q);
    WithoutMembers(s.records, i);
    hide Pairwise, Covered, FramesOwned, Mapped;
    forall q | q in t.records ensures RecOk(t, q) {
      assert RecOk(s, q);
      DropRecOk(s, t, r, q);
    }
  }

  // ------------------------------------------------------------------ cutting

  /** Record i, the topmost one, is cut at `desired`; the free of the interior address hits nothing. */
  ghost predicate Cut(s: State, i: nat, desired: nat, t: State)
    requires i < |s.records|
  {
    var r := s.records[i];
    IsTop(s, r) && r.user < desired < s.mappedEnd && desired % 4096 == 0 && t == ShrinkTop(s, i, desired)
  }

  lemma InteriorNotHeld(s: State, r: Rec, keep: nat)
    requires RecOk(s, r) && BlocksOk(s.held) && 0 < keep < r.size
    ensures r.raw + keep !in s.held && s.held - {r.raw + keep} == s.held
  {
  }

  lemma CutRecOk(s: State, t: State, r: Rec, q: Rec, desired: nat)
    requires RecOk(s, q) && RecOk(s, r) && Apart(q, r) && Bounds(s) && t.brkBase == s.brkBase && t.mapNext == s.mapNext
    requires r.user < desired < s.mappedEnd == r.user + r.size && desired % 4096 == 0 && t.mappedEnd == desired
             && t.held == s.held
    requires t.pages == UnmapRange(s.pages, desired / 4096, (s.mappedEnd - desired) / 4096)
    ensures RecOk(t, q)
  {
    StaysMapped(s.pages, t.pages, q);
  }

  lemma CutItself(s: State, t: State, r: Rec, desired: nat)
    requires RecOk(s, r) && Bounds(s) && s.brkBase <= r.user && t.brkBase == s.brkBase && t.mapNext == s.mapNext
    requires r.user < desired < s.mappedEnd == r.user + r.size && desired % 4096 == 0 && t.mappedEnd == desired
             && t.held == s.held
    requires t.pages == UnmapRange(s.pages, desired / 4096, (s.mappedEnd - desired) / 4096)
    ensures RecOk(t, r.(size := desired - r.user))
  {
    var c := r.(size := desired - r.user);
    assert Mapped(s.pages, c) by {
      forall p: nat | Holds(c, p) ensures p in s.pages && s.pages[p].phys == c.raw + (p * 4096 - c.user) {
        assert Holds(r, p);
      }
    }
    StaysMapped(s.pages, t.pages, c);
  }

  lemma CutLists(records: seq<Rec>, after: seq<Rec>, i: nat, c: Rec)
    requires i < |records| && after == records[i := c] && c == records[i].(size := c.size) && c.size <= records[i].size
    requires Pairwise(records)
    ensures Pairwise(after)
    ensures forall q :: q in after ==> q == c || (q in records && Apart(q, records[i]))
    ensures forall q :: q in records && q != records[i] ==> q in after
  {
    forall q | q in after ensures q == c || (q in records && Apart(q, records[i])) {
      var j :| 0 <= j < |after| && after[j] == q;
      if j != i { assert q == records[j]; }
    }
    forall q | q in records && q != records[i] ensures q in after {
      var j :| 0 <= j < |records| && records[j] == q;
      assert after[j] == q;
    }
  }

  lemma CutCovers(s: State, t: State, i: nat, desired: nat, c: Rec)
    requires i < |s.records| && Covered(s.records, s.brkBase, s.mappedEnd) && c in t.records && t.brkBase == s.brkBase
             && t.mappedEnd == desired <= s.mappedEnd
    requires c.user <= desired && c == s.records[i].(size := desired - c.user)
    requires forall q :: q in s.records && q != s.records[i] ==> q in t.records
    ensures Covered(t.records, t.brkBase, t.mappedEnd)
  {
    forall p | t.brkBase / 4096 <= p < t.mappedEnd / 4096 ensures CoveredAt(t.records, p) {
      assert CoveredAt(s.records, p);
      var q :| q in s.records && Holds(q, p);
      if q == s.records[i] { assert Holds(c, p); } else { assert q in t.records; }
    }
  }

  lemma CutFrames(s: State, t: State, i: nat, c: Rec)
    requires i < |s.records| && FramesOwned(s.records, s.held) && t.held == s.held && c in t.records
             && c.raw == s.records[i].raw
    requires forall q :: q in s.records && q != s.records[i] ==> q in t.records
    ensures FramesOwned(t.records, t.held)
  {
    forall b | b in t.held ensures Owned(t.records, b) {
      assert Owned(s.records, b);
      var q :| q in s.records && q.raw == b;
      if q != s.records[i] { assert q in t.records; }
    }
  }

  lemma CutShape(s: State, t: State, i: nat, desired: nat)
    requires i < |s.records| && Core(s) && Cut(s, i, desired, t)
    ensures var r := s.records[i];
            && t.records == s.records[i := r.(size := desired - r.user)] && t.mappedEnd == desired && t.held == s.held
            && t.pages == UnmapRange(s.pages, desired / 4096, (s.mappedEnd - desired) / 4096)
            && t.brkBase == s.brkBase && t.mapNext == s.mapNext
            && s.brkBase <= r.user < desired < s.mappedEnd == r.user + r.size && desired % 4096 == 0
  {
    var r := s.records[i];
    assert RecOk(s, r);
    InteriorNotHeld(s, r, desired - r.user);
  }

  lemma CutKeeps(s: State, t: State, i: nat, desired: nat)
    requires i < |s.records| && Core(s) && Cut(s, i, desired, t)
    ensures Core(t)
  {
    hide ShrinkTop, Cut, Pairwise, Covered, FramesOwned, RecOk, UnmapRange;
    CutShape(s, t, i, desired);
    var r := s.records[i];
    assert RecOk(s, r);
    var c := r.(size := desired - r.user);
    CutLists(s.records, t.records, i, c);
    assert t.records[i] == c;
    CutCovers(s, t, i, desired, c);
    CutFrames(s, t, i, c);
    CutItself(s, t, r, desired);
    forall q | q in t.records ensures RecOk(t, q) {
      if q != c {
        assert RecOk(s, q);
        CutRecOk(s, t, r, q, desired);
      }
    }
  }

  // ---------------------------------------------------------------- the break

  /** While the mapped heap is not empty, some record ends where it ends. */
  lemma TopExists(s: State)
    requires Core(s) && s.brkBase < s.mappedEnd
    ensures FindTop(s, 0) < |s.records|
  {
    var p := s.mappedEnd / 4096 - 1;
    assert CoveredAt(s.records, p);
    var q :| q in s.records && Holds(q, p);
    assert RecOk(s, q) && IsTop(s, q);
    var j :| 0 <= j < |s.records| && s.records[j] == q;
  }

  lemma ShrinkTopKeeps(s: State, i: nat, desired: nat)
    requires Core(s) && s.brkBase <= desired < s.mappedEnd && desired % 4096 == 0
    requires i < |s.records| && IsTop(s, s.records[i])
    ensures Core(ShrinkTop(s, i, desired)) && desired <= ShrinkTop(s, i, desired).mappedEnd < s.mappedEnd
  {
    assert RecOk(s, s.records[i]);
    var t := ShrinkTop(s, i, desired);
    if desired <= s.records[i].user { DropKeeps(s, t, i); } else { CutKeeps(s, t, i, desired); }
  }

  /** A round of the shrink loop gives frames back exactly when it drops the whole record. */
  lemma ShrinkReleasesExactly(s: State, i: nat, desired: nat)
    requires Core(s) && s.brkBase <= desired < s.mappedEnd && i < |s.records| && IsTop(s, s.records[i])
    ensures ShrinkTop(s, i, desired).held == s.held <==> s.records[i].user < desired
    ensures desired <= s.records[i].user ==> ShrinkTop(s, i, desired).held == s.held - {s.records[i].raw}
  {
    assert RecOk(s, s.records[i]);
    if s.records[i].user < desired { InteriorNotHeld(s, s.records[i], desired - s.records[i].user); }
  }

  /** Shrinking always finds its record and ends exactly at the desired end. */
  lemma {:induction false} ShrinkKeeps(s: State, desired: nat)
    requires Core(s) && s.brkBase <= desired <= s.mappedEnd && desired % 4096 == 0
    ensures var (t, ok) := Shrink(s, desired);
            && ok && Core(t) && t.mappedEnd == desired && t.brkBase == s.brkBase && t.brkCurrent == s.brkCurrent
            && t.mapNext == s.mapNext
    decreases s.mappedEnd
  {
    if desired < s.mappedEnd {
      TopExists(s);
      var i := FindTop(s, 0);
      ShrinkTopKeeps(s, i, desired);
      ShrinkKeeps(ShrinkTop(s, i, desired), desired);
    }
  }

  // ------------------------------------------------------- failed allocations

  /** Allocating user pages that cannot all be mapped leaves only stray pages. */
  lemma FailedAllocKeeps(s: State, virt: nat, bytes: nat, flags: nat, grant: Grant)
    requires Core(s) && FreeRange(s.records, virt, bytes) && virt % 4096 == 0 && bytes % 4096 == 0
    requires AllocateUserPages(s, virt, bytes, flags, grant).1.None?
    ensures var t := AllocateUserPages(s, virt, bytes, flags, grant).0; Core(t) && t == s.(pages := t.pages)
  {
    hide Core;
    StrayPages(s, AllocateUserPages(s, virt, bytes, flags, grant).0, virt, bytes);
  }

  /** Without room for a record, the pages are unmapped and the block goes back. */
  lemma UntrackedKeeps(s: State, virt: nat, bytes: nat, flags: nat, grant: Grant)
    requires Core(s) && FreeRange(s.records, virt, bytes) && virt % 4096 == 0 && bytes % 4096 == 0 && bytes > 0
    requires ValidGrant(s, bytes, grant) && AllocateUserPages(s, virt, bytes, flags, grant).1.Some?
    ensures var t := AllocateUserPages(s, virt, bytes, flags, grant).0;
            var u := UnmapAndFree(t, virt, bytes, grant.phys);
            Core(u) && u == s.(pages := u.pages)
  {
    var t := AllocateUserPages(s, virt, bytes, flags, grant).0;
    var u := UnmapAndFree(t, virt, bytes, grant.phys);
    GrantIsNew(s, grant.phys, bytes);
    assert u.held == s.held;
    hide Core;
    StrayPages(s, u, virt, bytes);
  }

  lemma MapNextKeeps(s: State, n: nat)
    requires Core(s) && s.mapNext <= n <= MAP_LIMIT && n % 4096 == 0
    ensures Core(s.(mapNext := n))
  {
    var t := s.(mapNext := n);
    hide Mapped, Pairwise, Covered, FramesOwned;
    forall r | r in t.records ensures RecOk(t, r) { assert RecOk(s, r); }
  }
}
