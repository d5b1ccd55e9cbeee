/**
 The system calls and their runs over the invariant of module ProcessProofs.
 */
module ProcessRuns {
  import opened Machine
  import opened Wrappers
  import opened ProcessModel
  import opened ProcessProofs

  // --------------------------------------------------------------------- brk

  lemma GrowRangeFree(s: State, desired: nat)
    requires Core(s) && s.mappedEnd <= desired <= MMAP_BASE
    ensures FreeRange(s.records, s.mappedEnd, desired - s.mappedEnd)
  {
    forall q | q in s.records ensures q.user + q.size <= s.mappedEnd || desired <= q.user { assert RecOk(s, q); }
  }

  /** The request leaves the heap's page range. */
  predicate OutOfRange(s: State, requested: nat) {
    requested != 0 && (requested < s.brkBase || requested >= MMAP_BASE)
  }

  ghost predicate ValidBrk(s: State, requested: nat, grant: Grant) {
    requested < U64 && (PageUp(requested) > s.mappedEnd ==> ValidGrant(s, PageUp(requested) - s.mappedEnd, grant))
  }

  /** The record of a grown heap is well shaped, and its page count is not cut. */
  lemma GrowRecord(s: State, desired: nat, grant: Grant)
    requires Core(s) && s.mappedEnd < desired <= MMAP_BASE && desired % 4096 == 0
    requires ValidGrant(s, desired - s.mappedEnd, grant) && grant.Frames?
    ensures var bytes := desired - s.mappedEnd;
            && RecShape(Rec(s.mappedEnd, grant.phys, bytes, true)) && Fits32(bytes) && PageCount(bytes) * 4096 == bytes
            && ValidGrant(s, bytes, Grant.Frames(grant.phys, 0, true))
  {
    hide Covered, FramesOwned, Records;
    CountIsWhole(desired - s.mappedEnd);
  }

  lemma CountIsWhole(bytes: nat)
    requires 0 < bytes <= MMAP_BASE - HEAP_BASE && bytes % 4096 == 0
    ensures Fits32(bytes) && PageCount(bytes) > 0 && PageCount(bytes) * 4096 == bytes
  {
  }

  lemma GrowKeeps(s: State, requested: nat, desired: nat, grant: Grant)
    requires Core(s) && s.mappedEnd < desired <= MMAP_BASE && desired % 4096 == 0
    requires ValidGrant(s, desired - s.mappedEnd, grant)
    ensures var (t, a) := Grow(s, requested, desired, grant);
            && Core(t) && (a == Break(requested) || a == NoMemory)
            && (a == Break(requested) ==> t.brkCurrent == requested && t.mappedEnd == desired && t.brkBase == s.brkBase)
            && (a == NoMemory ==> t == s.(pages := t.pages))
  {
    hide Covered, FramesOwned, Records, ValidGrant, PageCount, Fits32, RecShape, FreeRange, MapRange, UnmapRange;
    var bytes := desired - s.mappedEnd;
    GrowRangeFree(s, desired);
    CountIsWhole(bytes);
    var (t, phys) := AllocateUserPages(s, s.mappedEnd, bytes, WRITABLE_USER, grant);
    if phys.None? {
      FailedAllocKeeps(s, s.mappedEnd, bytes, WRITABLE_USER, grant);
    } else if !grant.tracked {
      UntrackedKeeps(s, s.mappedEnd, bytes, WRITABLE_USER, grant);
    } else {
      GrowRecord(s, desired, grant);
      AddKeeps(s, Grow(s, requested, desired, grant).0, Rec(s.mappedEnd, grant.phys, bytes, true), WRITABLE_USER);
    }
  }

  /**
   Every brk call keeps the invariant. It is refused exactly for a break outside the heap's
   range, never for a missing record, and after success the break is the one asked for.
   */
  lemma BrkKeeps(s: State, requested: nat, grant: Grant)
    requires Inv(s) && ValidBrk(s, requested, grant)
    ensures var (t, a) := Brk(s, requested, grant);
            && Inv(t) && (a == Invalid <==> OutOfRange(s, requested))
            && (a.Break? ==> t.brkCurrent == a.at && (requested != 0 ==> a.at == requested))
            && (!a.Break? ==> t == s.(pages := t.pages))
  {
    if requested != 0 && !OutOfRange(s, requested) {
      hide Covered, FramesOwned, Records, Grow, Shrink;
      if PageUp(requested) > s.mappedEnd {
        GrowKeeps(s, requested, PageUp(requested), grant);
      } else {
        ShrinkKeeps(s, PageUp(requested));
        BrkFieldKeeps(Shrink(s, PageUp(requested)).0, requested);
      }
    }
  }

  lemma BrkFieldKeeps(s: State, requested: nat)
    requires Core(s)
    ensures Core(s.(brkCurrent := requested))
  {
    var t := s.(brkCurrent := requested);
    forall r | r in t.records ensures RecOk(t, r) { assert RecOk(s, r); }
  }

  /** Every byte below the break is mapped, and to a frame of the heap's own records. */
  lemma HeapIsMapped(s: State, at: nat)
    requires Inv(s) && s.brkBase <= at < s.brkCurrent
    ensures CoveredAt(s.records, at / 4096) && at / 4096 in s.pages
  {
    assert CoveredAt(s.records, at / 4096);
    var q :| q in s.records && Holds(q, at / 4096);
    assert RecOk(s, q);
  }

  // -------------------------------------------------------------------- mmap

  lemma MmapRangeFree(s: State, base: nat, bytes: nat)
    requires Core(s) && s.mapNext <= base
    ensures FreeRange(s.records, base, bytes)
  {
    forall q | q in s.records ensures q.user + q.size <= base || base + bytes <= q.user { assert RecOk(s, q); }
  }

  ghost predicate ValidMmap(s: State, length: nat, grant: Grant) {
    length < U64 && ValidGrant(s, PageUp(length), grant)
  }

  lemma MapAtKeeps(s: State, base: nat, bytes: nat, flags: nat, grant: Grant)
    requires Core(s) && ValidGrant(s, bytes, grant) && FreeRange(s.records, base, bytes)
    requires base % 4096 == 0 && bytes % 4096 == 0 && 0 < bytes && s.mapNext <= base && base + bytes <= MAP_LIMIT
    requires Fits32(bytes) || MapAt(s, base, bytes, flags, grant).1.None?
    ensures var (t, a) := MapAt(s, base, bytes, flags, grant);
            && Core(t) && t.brkBase == s.brkBase && t.brkCurrent == s.brkCurrent && t.mappedEnd == s.mappedEnd
            && (a.Some? ==> a.value == base && t.records == [Rec(base, grant.phys, bytes, true)] + s.records)
            && (a.None? ==> t.records == s.records)
  {
    hide Covered, FramesOwned, Records;
    var (t, phys) := AllocateUserPages(s, base, bytes, flags, grant);
    if phys.None? {
      FailedAllocKeeps(s, base, bytes, flags, grant);
    } else if !grant.tracked {
      UntrackedKeeps(s, base, bytes, flags, grant);
      MapNextKeeps(UnmapAndFree(t, base, bytes, phys.value), base + bytes);
    } else {
      AddKeeps(s, MapAt(s, base, bytes, flags, grant).0, Rec(base, grant.phys, bytes, true), flags);
    }
  }

  /** A new mapping is page-aligned, in the mmap area, and meets no live record. */
  lemma MmapKeeps(s: State, length: nat, flags: nat, grant: Grant)
    requires Inv(s) && ValidMmap(s, length, grant)
    requires Fits32(PageUp(length)) || Mmap(s, length, flags, grant).1.None?
    ensures var (t, a) := Mmap(s, length, flags, grant);
            && Inv(t)
            && (a.Some? ==>
                  && a.value % 4096 == 0 && MMAP_BASE <= a.value && a.value + length <= MAP_LIMIT
                  && FreeRange(s.records, a.value, PageUp(length))
                  && t.records == [Rec(a.value, grant.phys, PageUp(length), true)] + s.records)
            && (a.None? ==> t.records == s.records)
  {
    hide Covered, FramesOwned, Records, MapAt, ValidGrant;
    var bytes := PageUp(length);
    var next := PageUp(s.mapNext);
    if length != 0 && bytes != 0 {
      var found := FindBase(s.pages, next, bytes);
      if found.Some? {
        var base := found.value;
        MmapRangeFree(s, base, bytes);
        MapAtKeeps(s, base, bytes, flags, grant);
      }
    }
  }

  /** The record of a mapping whose page count was cut is longer than its block. */
  lemma CutCountBreaks(s: State, base: nat, bytes: nat, flags: nat, grant: Grant)
    requires bytes % 4096 == 0 && !Fits32(bytes) && MapAt(s, base, bytes, flags, grant).1.Some?
    ensures !Inv(MapAt(s, base, bytes, flags, grant).0)
  {
    var t := MapAt(s, base, bytes, flags, grant).0;
    var r := Rec(base, grant.phys, bytes, true);
    assert t.records[0] == r && r in t.records;
    CutIsShorter(bytes);
    assert !RecOk(t, r);
  }

  lemma CutIsShorter(bytes: nat)
    requires bytes % 4096 == 0 && !Fits32(bytes)
    ensures PageCount(bytes) * 4096 < bytes
  {
  }

  lemma MapNextInArea(s: State)
    requires Inv(s)
    ensures PageUp(s.mapNext) == s.mapNext >= MMAP_BASE
  {
  }

  /** A successful mmap leaves every record with frames of its own exactly when it is for fewer than 2^32 pages. */
  lemma MmapKeepsExactly(s: State, length: nat, flags: nat, grant: Grant)
    requires Inv(s) && ValidMmap(s, length, grant) && Mmap(s, length, flags, grant).1.Some?
    ensures Inv(Mmap(s, length, flags, grant).0) <==> Fits32(PageUp(length))
  {
    hide Core, Fits32, MapAt;
    if Fits32(PageUp(length)) {
      MmapKeeps(s, length, flags, grant);
    } else {
      MapNextInArea(s);
      CutCountBreaks(s, FindBase(s.pages, PageUp(s.mapNext), PageUp(length)).value, PageUp(length), flags, grant);
    }
  }

  /** 2^32 + 1 pages are mapped at the first try, over a block of one page. */
  lemma CutCountWitness()
    ensures var (t, a) := Mmap(Initial(), 0x1000_0000_1000, 3, Grant.Frames(4096, 0x1_0000_0001, true));
            && a == Some(MMAP_BASE) && t.held == map[4096 := 4096] && |t.records| == 1
            && t.records[0].size == 0x1000_0000_1000
  {
    assert PageUp(0x1000_0000_1000) == 0x1000_0000_1000 && PageUp(MMAP_BASE) == MMAP_BASE;
    assert RangeUnmapped(map[], MMAP_BASE / 4096, 0x1_0000_0001);
  }

  /** The chosen base is the lowest page from the search's start with a free range. */
  lemma {:induction false} FindBaseIsFirst(pages: map<nat, Frame>, base: nat, bytes: nat, b: nat)
    requires base % 4096 == 0 && bytes % 4096 == 0 && bytes > 0
    requires b % 4096 == 0 && base <= b && b + bytes <= MAP_LIMIT && RangeUnmapped(pages, b / 4096, bytes / 4096)
    ensures FindBase(pages, base, bytes).Some? && FindBase(pages, base, bytes).value <= b
    decreases b - base
  {
    if base < b && !RangeUnmapped(pages, base / 4096, bytes / 4096) { FindBaseIsFirst(pages, base + 4096, bytes, b); }
  }

  // ------------------------------------------------------------------- munmap

  lemma MunmapKeeps(s: State, virt: nat, length: nat)
    requires Inv(s) && (virt >= MMAP_BASE || !Munmap(s, virt, length).1)
    ensures Inv(Munmap(s, virt, length).0)
  {
    if Munmap(s, virt, length).1 {
      DropKeeps(s, Munmap(s, virt, length).0, FindMapping(s.records, virt, PageUp(length), 0));
    }
  }

  /**
   munmap does not look where the mapping lies. A call that removes a record keeps the heap
   tiled exactly when the record is not one of the heap's.
   */
  lemma MunmapKeepsExactly(s: State, virt: nat, length: nat)
    requires Inv(s) && Munmap(s, virt, length).1
    ensures Inv(Munmap(s, virt, length).0) <==> virt >= MMAP_BASE
  {
    if virt >= MMAP_BASE {
      MunmapKeeps(s, virt, length);
    } else {
      HeapHole(s, virt, length);
    }
  }

  /** After a heap record was unmapped, its first page belongs to no record. */
  lemma HeapHole(s: State, virt: nat, length: nat)
    requires Inv(s) && Munmap(s, virt, length).1 && virt < MMAP_BASE
    ensures var t := Munmap(s, virt, length).0;
            t.brkBase / 4096 <= virt / 4096 < t.mappedEnd / 4096 && !CoveredAt(t.records, virt / 4096)
  {
    var i := FindMapping(s.records, virt, PageUp(length), 0);
    var r := s.records[i];
    assert RecOk(s, r);
    assert forall q :: q in s.records ==> RecOk(s, q);
    WithoutMembers(s.records, i);
    var t := Munmap(s, virt, length).0;
    assert forall q :: q in t.records ==> Apart(q, r) && RecOk(s, q);
    hide Pairwise, Mapped, Covered, FramesOwned;
  }

  /** The hole is real: grow by one page, munmap it, and the next shrink is refused. */
  lemma HeapHoleWitness()
    ensures var s := Brk(Initial(), HEAP_BASE + 4096, Grant.Frames(4096, 1, true)).0;
            var (t, ok) := Munmap(s, HEAP_BASE, 4096);
            ok && Brk(t, HEAP_BASE, NoFrames).1 == Invalid
  {
    var s := Brk(Initial(), HEAP_BASE + 4096, Grant.Frames(4096, 1, true)).0;
    var r := Rec(HEAP_BASE, 4096, 4096, true);
    assert s.records == [r] && s.mappedEnd == HEAP_BASE + 4096;
    assert FindMapping(s.records, HEAP_BASE, 4096, 0) == 0;
    var t := Munmap(s, HEAP_BASE, 4096).0;
    assert t.records == [];
    assert FindTop(t, 0) == 0;
  }

  // ----------------------------------------------------------------- mprotect

  /** Only flags change, and only on pages asked for; success when all of those were mapped. */
  lemma {:induction false} ProtectPagesChanges(pages: map<nat, Frame>, p: nat, n: nat, flags: nat)
    ensures var (after, ok) := ProtectPages(pages, p, n, flags);
            && after.Keys == pages.Keys
            && (forall x :: x in pages && pages[x].phys % 4096 == 0 ==> after[x].phys == pages[x].phys)
            && (forall x :: x in pages && !(p <= x < p + n) ==> after[x] == pages[x])
            && (ok <==> forall x :: p <= x < p + n ==> x in pages)
            && (ok ==> forall x :: p <= x < p + n ==> after[x].flags == flags)
    decreases n
  {
    if n > 0 && p in pages {
      ProtectPagesChanges(pages[p := Frame(pages[p].phys / 4096 * 4096, flags)], p + 1, n - 1, flags);
    }
  }

  lemma ProtectedMapped(pages: map<nat, Frame>, after: map<nat, Frame>, r: Rec)
    requires RecShape(r) && Mapped(pages, r) && after.Keys == pages.Keys
    requires forall x :: x in pages && pages[x].phys % 4096 == 0 ==> after[x].phys == pages[x].phys
    ensures Mapped(after, r)
  {
    forall p: nat | Holds(r, p) ensures p in after && after[p].phys == r.raw + (p * 4096 - r.user) {
      assert p in pages && pages[p].phys == r.raw + (p * 4096 - r.user);
    }
  }

  lemma ProtectKeeps(s: State, virt: nat, size: nat, flags: nat)
    requires Inv(s)
    ensures Inv(Protect(s, virt, size, flags).0)
  {
    hide Mapped, Pairwise, Covered, FramesOwned;
    var t := Protect(s, virt, size, flags).0;
    ProtectPagesChanges(s.pages, virt / 4096, PageUp(virt % 4096 + size) / 4096, flags);
    forall r | r in t.records ensures RecOk(t, r) {
      assert RecOk(s, r);
      ProtectedMapped(s.pages, t.pages, r);
    }
  }

  // -------------------------------------------------------------------- runs

  datatype Op =
    | SetBreak(requested: nat, grant: Grant)
    | MapAnonymous(length: nat, flags: nat, grant: Grant)
    | Unmap(virt: nat, length: nat)
    | SetProtection(virt: nat, size: nat, flags: nat)

  function Step(s: State, op: Op): State {
    match op
    case SetBreak(requested, grant) => Brk(s, requested, grant).0
    case MapAnonymous(length, flags, grant) => Mmap(s, length, flags, grant).0
    case Unmap(virt, length) => Munmap(s, virt, length).0
    case SetProtection(virt, size, flags) => Protect(s, virt, size, flags).0
  }

  /** The page allocator grants blocks that are free, a mapping that succeeds has fewer than 2^32
      pages, and munmap names addresses of the mmap area. */
  ghost predicate ValidOp(s: State, op: Op) {
    match op
    case SetBreak(requested, grant) => ValidBrk(s, requested, grant)
    case MapAnonymous(length, flags, grant) =>
      ValidMmap(s, length, grant) && (Fits32(PageUp(length)) || Mmap(s, length, flags, grant).1.None?)
    case Unmap(virt, _) => virt >= MMAP_BASE
    case SetProtection(_, _, _) => true
  }

  lemma StepKeeps(s: State, op: Op)
    requires Inv(s) && ValidOp(s, op)
    ensures Inv(Step(s, op))
  {
    hide Inv;
    match op
    case SetBreak(requested, grant) => BrkKeeps(s, requested, grant);
    case MapAnonymous(length, flags, grant) => MmapKeeps(s, length, flags, grant);
    case Unmap(virt, length) => MunmapKeeps(s, virt, length);
    case SetProtection(virt, size, flags) => ProtectKeeps(s, virt, size, flags);
  }

  ghost predicate ValidRun(s: State, ops: seq<Op>)
    decreases |ops|
  {
    ops == [] || (ValidOp(s, ops[0]) && ValidRun(Step(s, ops[0]), ops[1..]))
  }

  function After(s: State, ops: seq<Op>): State
    decreases |ops|
  {
    if ops == [] then s else After(Step(s, ops[0]), ops[1..])
  }

  /** In every run the heap records tile the mapped heap up to the page-rounded break, every
      record's pages are mapped to its frames, and ranges and frame blocks stay apart. */
  lemma {:induction false} RunKeeps(s: State, ops: seq<Op>)
    requires Inv(s) && ValidRun(s, ops)
    ensures Inv(After(s, ops))
    decreases |ops|
  {
    if ops != [] {
      StepKeeps(s, ops[0]);
      RunKeeps(Step(s, ops[0]), ops[1..]);
    }
  }

  lemma FrameInBlock(s: State, r: Rec, p: nat)
    requires RecOk(s, r) && Holds(r, p)
    ensures p in s.pages && s.pages[p].phys == r.raw + (p * 4096 - r.user)
    ensures r.raw in s.held && r.raw <= s.pages[p].phys < r.raw + s.held[r.raw]
  {
  }

  lemma BlocksApart(held: map<nat, nat>, a: nat, b: nat)
    requires BlocksOk(held) && a in held && b in held && a != b
    ensures a + held[a] <= b || b + held[b] <= a
  {
  }

  lemma DifferentFrames(s: State, r: Rec, t: Rec, p: nat, q: nat)
    requires RecOk(s, r) && RecOk(s, t) && Holds(r, p) && Holds(t, q) && p != q && BlocksOk(s.held)
    requires r == t || r.raw != t.raw
    ensures p in s.pages && q in s.pages && s.pages[p].phys != s.pages[q].phys
  {
    FrameInBlock(s, r, p);
    FrameInBlock(s, t, q);
    hide BlocksOk, RecOk, Holds;
    if r != t { BlocksApart(s.held, r.raw, t.raw); }
  }

  /** No two tracked pages lead to the same frame. */
  lemma NoSharedFrame(s: State, p: nat, q: nat)
    requires Inv(s) && p != q && CoveredAt(s.records, p) && CoveredAt(s.records, q)
    ensures p in s.pages && q in s.pages && s.pages[p].phys != s.pages[q].phys
  {
    hide RecOk, Pairwise, Covered, Holds, BlocksOk;
    var r :| r in s.records && Holds(r, p);
    var t :| t in s.records && Holds(t, q);
    assert RecOk(s, r) && RecOk(s, t);
    if r != t {
      var i :| 0 <= i < |s.records| && s.records[i] == r;
      ApartFrom(s.records, i, t);
    }
    DifferentFrames(s, r, t, p, q);
  }

  /** The frames held are exactly the blocks of the live records: nothing leaks, also not what a
      partial shrink could not give back. */
  lemma HeldIsRecorded(s: State, b: nat)
    requires Inv(s)
    ensures b in s.held <==> exists r :: r in s.records && r.raw == b
  {
    if b in s.held { assert Owned(s.records, b); }
    if exists r :: r in s.records && r.raw == b {
      var r :| r in s.records && r.raw == b;
      assert RecOk(s, r);
    }
  }

  /** For every run from a fresh process. */
  lemma EveryRunIsSafe(ops: seq<Op>, p: nat, q: nat, b: nat)
    requires ValidRun(Initial(), ops)
    ensures var s := After(Initial(), ops);
            && Inv(s)
            && (p != q && CoveredAt(s.records, p) && CoveredAt(s.records, q) ==>
                  p in s.pages && q in s.pages && s.pages[p].phys != s.pages[q].phys)
            && (b in s.held <==> exists r :: r in s.records && r.raw == b)
  {
    InitialInv();
    RunKeeps(Initial(), ops);
    var s := After(Initial(), ops);
    HeldIsRecorded(s, b);
    hide Inv;
    if p != q && CoveredAt(s.records, p) && CoveredAt(s.records, q) { NoSharedFrame(s, p, q); }
  }
}
