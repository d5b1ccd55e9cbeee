/**
 Pages that are mapped but belong to no record. A failed mapping leaves them behind, pointing at
 frames that have gone back; nothing else does.
 */
module ProcessStray {
  import opened ProcessModel
  import opened ProcessProofs
  import opened ProcessRuns

  /** Every mapped page belongs to a record. */
  ghost predicate NoStray(s: State) { forall p :: p in s.pages ==> CoveredAt(s.records, p) }

  /** Frames were granted, and the mapping stopped after some pages but not all. */
  predicate Partial(grant: Grant, bytes: nat) {
    grant.Frames? && PageCount(bytes) > 0 && 0 < grant.mapped < bytes / 4096
  }

  // ---------------------------------------------------------------- allocation

  lemma FreePageIsUncovered(records: seq<Rec>, virt: nat, bytes: nat)
    requires FreeRange(records, virt, bytes) && virt % 4096 == 0 && bytes >= 4096
             && forall q :: q in records ==> RecShape(q)
    ensures !CoveredAt(records, virt / 4096)
  {
  }

  /** A failed allocation leaves stray pages exactly when it was partial. */
  lemma FailedAllocStray(s: State, virt: nat, bytes: nat, flags: nat, grant: Grant)
    requires Core(s) && NoStray(s) && FreeRange(s.records, virt, bytes) && virt % 4096 == 0 && bytes % 4096 == 0
             && bytes > 0
    requires AllocateUserPages(s, virt, bytes, flags, grant).1.None?
    ensures NoStray(AllocateUserPages(s, virt, bytes, flags, grant).0) <==> !Partial(grant, bytes)
  {
    var t := AllocateUserPages(s, virt, bytes, flags, grant).0;
    if Partial(grant, bytes) {
      assert forall q :: q in s.records ==> RecOk(s, q);
      FreePageIsUncovered(s.records, virt, bytes);
      assert virt / 4096 in t.pages;
    }
  }

  lemma UntrackedStray(s: State, t: State, virt: nat, bytes: nat, flags: nat, phys: nat, n: nat)
    requires NoStray(s) && t.records == s.records
    requires t.pages == UnmapRange(MapRange(s.pages, virt / 4096, n, phys, flags), virt / 4096, n)
    ensures NoStray(t)
  {
  }

  lemma AddedStray(s: State, t: State, r: Rec, flags: nat)
    requires NoStray(s) && RecShape(r) && t.records == [r] + s.records && t.pages == Added(s, r, flags).pages
    ensures NoStray(t)
  {
    forall p | p in t.pages ensures CoveredAt(t.records, p) {
      if r.user / 4096 <= p < r.user / 4096 + r.size / 4096 {
        assert r in t.records && Holds(r, p);
      } else {
        assert CoveredAt(s.records, p);
        var q :| q in s.records && Holds(q, p);
        assert q in t.records;
      }
    }
  }

  lemma GrowStray(s: State, requested: nat, desired: nat, grant: Grant)
    requires Core(s) && NoStray(s) && s.mappedEnd < desired <= MMAP_BASE && desired % 4096 == 0
    requires ValidGrant(s, desired - s.mappedEnd, grant)
    ensures NoStray(Grow(s, requested, desired, grant).0) <==> !Partial(grant, desired - s.mappedEnd)
  {
    hide Covered, FramesOwned, Records, NoStray, ValidGrant, PageCount, RecShape, FreeRange, MapRange, UnmapRange;
    var bytes := desired - s.mappedEnd;
    GrowRangeFree(s, desired);
    CountIsWhole(bytes);
    var (t, phys) := AllocateUserPages(s, s.mappedEnd, bytes, WRITABLE_USER, grant);
    if phys.None? {
      FailedAllocStray(s, s.mappedEnd, bytes, WRITABLE_USER, grant);
    } else if !grant.tracked {
      UntrackedStray(s, Grow(s, requested, desired, grant).0, s.mappedEnd, bytes, WRITABLE_USER, grant.phys,
                     bytes / 4096);
    } else {
      GrowRecord(s, desired, grant);
      AddedStray(s, Grow(s, requested, desired, grant).0, Rec(s.mappedEnd, grant.phys, bytes, true), WRITABLE_USER);
    }
  }

  lemma MapAtStray(s: State, base: nat, bytes: nat, flags: nat, grant: Grant)
    requires Core(s) && NoStray(s) && ValidGrant(s, bytes, grant) && FreeRange(s.records, base, bytes)
    requires base % 4096 == 0 && bytes % 4096 == 0 && 0 < bytes
    ensures NoStray(MapAt(s, base, bytes, flags, grant).0) <==> !Partial(grant, bytes)
  {
    hide Covered, FramesOwned, Records, NoStray;
    var (t, phys) := AllocateUserPages(s, base, bytes, flags, grant);
    if phys.None? {
      FailedAllocStray(s, base, bytes, flags, grant);
    } else if !grant.tracked {
      UntrackedStray(s, MapAt(s, base, bytes, flags, grant).0, base, bytes, flags, grant.phys, bytes / 4096);
    } else {
      GrantInside(s, bytes, grant);
      AddedStray(s, MapAt(s, base, bytes, flags, grant).0, Rec(base, grant.phys, bytes, true), flags);
    }
  }

  lemma GrantInside(s: State, bytes: nat, grant: Grant)
    requires ValidGrant(s, bytes, grant) && grant.Frames? && PageCount(bytes) > 0
    ensures grant.phys % 4096 == 0 && 0 < grant.phys < CEILING
  {
  }

  // --------------------------------------------------------- other operations

  lemma DropStray(s: State, t: State, i: nat)
    requires i < |s.records| && Core(s) && NoStray(s) && Dropped(s, i, t)
    ensures NoStray(t)
  {
    hide Covered, FramesOwned, Mapped;
    assert RecOk(s, s.records[i]) && forall q :: q in s.records ==> RecOk(s, q);
    WithoutMembers(s.records, i);
    hide Pairwise;
    forall p | p in t.pages ensures CoveredAt(t.records, p) {
      assert CoveredAt(s.records, p);
      var q :| q in s.records && Holds(q, p);
      assert q != s.records[i];
      assert q in t.records;
    }
  }

  lemma CutStray(s: State, t: State, i: nat, desired: nat)
    requires i < |s.records| && Core(s) && NoStray(s) && Cut(s, i, desired, t)
    ensures NoStray(t)
  {
    hide Covered, FramesOwned, Mapped, Pairwise, ShrinkTop;
    CutShape(s, t, i, desired);
    var r := s.records[i];
    var c := r.(size := desired - r.user);
    assert t.records[i] == c;
    forall p | p in t.pages ensures CoveredAt(t.records, p) {
      assert CoveredAt(s.records, p);
      var q :| q in s.records && Holds(q, p);
      if q == r {
        assert c in t.records && Holds(c, p);
      } else {
        var j :| 0 <= j < |s.records| && s.records[j] == q;
        assert t.records[j] == q;
      }
    }
  }

  lemma {:induction false} ShrinkStray(s: State, desired: nat)
    requires Core(s) && NoStray(s) && s.brkBase <= desired <= s.mappedEnd && desired % 4096 == 0
    ensures NoStray(Shrink(s, desired).0)
    decreases s.mappedEnd
  {
    hide NoStray, Records, Covered, FramesOwned;
    if desired < s.mappedEnd {
      TopExists(s);
      var i := FindTop(s, 0);
      var t := ShrinkTop(s, i, desired);
      ShrinkTopKeeps(s, i, desired);
      TopShape(s, i);
      if desired <= s.records[i].user { DropStray(s, t, i); } else { CutStray(s, t, i, desired); }
      ShrinkStray(t, desired);
    }
  }

  lemma TopShape(s: State, i: nat)
    requires Core(s) && i < |s.records| && IsTop(s, s.records[i])
    ensures s.records[i].user < MMAP_BASE
  {
    assert RecOk(s, s.records[i]);
  }

  lemma ProtectStray(s: State, virt: nat, size: nat, flags: nat)
    requires NoStray(s)
    ensures NoStray(Protect(s, virt, size, flags).0)
  {
    ProtectPagesChanges(s.pages, virt / 4096, PageUp(virt % 4096 + size) / 4096, flags);
  }

  // ------------------------------------------------------------- steps and runs

  /** The call gets frames and maps only some of them. */
  predicate StopsHalfway(s: State, op: Op) {
    match op
    case SetBreak(requested, grant) =>
      && requested != 0 && !OutOfRange(s, requested) && PageUp(requested) > s.mappedEnd
      && Partial(grant, PageUp(requested) - s.mappedEnd)
    case MapAnonymous(length, _, grant) =>
      var next := PageUp(s.mapNext);
      && length != 0 && PageUp(length) != 0 && Partial(grant, PageUp(length))
      && FindBase(s.pages, if next < MMAP_BASE then MMAP_BASE else next, PageUp(length)).Some?
    case Unmap(_, _) => false
    case SetProtection(_, _, _) => false
  }

  lemma BrkStray(s: State, requested: nat, grant: Grant)
    requires Inv(s) && NoStray(s) && ValidBrk(s, requested, grant)
    ensures NoStray(Brk(s, requested, grant).0) <==> !StopsHalfway(s, SetBreak(requested, grant))
  {
    if requested != 0 && !OutOfRange(s, requested) {
      hide Covered, FramesOwned, Records, Grow, Shrink, NoStray;
      if PageUp(requested) > s.mappedEnd {
        GrowStray(s, requested, PageUp(requested), grant);
      } else {
        ShrinkKeeps(s, PageUp(requested));
        ShrinkStray(s, PageUp(requested));
        BreakStray(Shrink(s, PageUp(requested)).0, requested);
      }
    }
  }

  lemma BreakStray(s: State, requested: nat)
    requires NoStray(s)
    ensures NoStray(s.(brkCurrent := requested))
  {
  }

  lemma MmapStray(s: State, length: nat, flags: nat, grant: Grant)
    requires Inv(s) && NoStray(s) && ValidMmap(s, length, grant)
    ensures NoStray(Mmap(s, length, flags, grant).0) <==> !StopsHalfway(s, MapAnonymous(length, flags, grant))
  {
    hide Covered, FramesOwned, Records, MapAt, ValidGrant, NoStray, Partial;
    MapNextInArea(s);
    var bytes := PageUp(length);
    if length != 0 && bytes != 0 {
      var found := FindBase(s.pages, s.mapNext, bytes);
      if found.Some? {
        MmapRangeFree(s, found.value, bytes);
        MapAtStray(s, found.value, bytes, flags, grant);
      }
    }
  }

  lemma MunmapStray(s: State, virt: nat, length: nat)
    requires Inv(s) && NoStray(s) && virt >= MMAP_BASE
    ensures NoStray(Munmap(s, virt, length).0)
  {
    hide NoStray, Core;
    if Munmap(s, virt, length).1 {
      DropStray(s, Munmap(s, virt, length).0, FindMapping(s.records, virt, PageUp(length), 0));
    }
  }

  /** A call on a process without stray pages leaves some exactly when its mapping stops halfway. */
  lemma StepStray(s: State, op: Op)
    requires Inv(s) && NoStray(s) && ValidOp(s, op)
    ensures NoStray(Step(s, op)) <==> !StopsHalfway(s, op)
  {
    hide Inv, NoStray;
    match op
    case SetBreak(requested, grant) => BrkStray(s, requested, grant);
    case MapAnonymous(length, flags, grant) => MmapStray(s, length, flags, grant);
    case Unmap(virt, length) => MunmapStray(s, virt, length);
    case SetProtection(virt, size, flags) => ProtectStray(s, virt, size, flags);
  }

  ghost predicate CleanThroughout(s: State, ops: seq<Op>)
    decreases |ops|
  {
    NoStray(s) && (ops == [] || CleanThroughout(Step(s, ops[0]), ops[1..]))
  }

  predicate NoneHalfway(s: State, ops: seq<Op>)
    decreases |ops|
  {
    ops == [] || (!StopsHalfway(s, ops[0]) && NoneHalfway(Step(s, ops[0]), ops[1..]))
  }

  /** A run is free of stray pages throughout exactly when no mapping of it stops halfway. */
  lemma {:induction false} RunStray(s: State, ops: seq<Op>)
    requires Inv(s) && NoStray(s) && ValidRun(s, ops)
    ensures CleanThroughout(s, ops) <==> NoneHalfway(s, ops)
    decreases |ops|
  {
    if ops != [] {
      hide Inv, NoStray, Step;
      StepKeeps(s, ops[0]);
      StepStray(s, ops[0]);
      if NoStray(Step(s, ops[0])) { RunStray(Step(s, ops[0]), ops[1..]); }
    }
  }

  /** Without stray pages, every mapped page leads into a block that is held, and no two share a frame. */
  lemma CleanPagesAreOwned(s: State, p: nat, q: nat)
    requires Inv(s) && NoStray(s) && p in s.pages && q in s.pages
    ensures exists b :: b in s.held && b <= s.pages[p].phys < b + s.held[b]
    ensures p != q ==> s.pages[p].phys != s.pages[q].phys
  {
    hide Inv;
    assert CoveredAt(s.records, p) && CoveredAt(s.records, q);
    if p != q { NoSharedFrame(s, p, q); }
    var r :| r in s.records && Holds(r, p);
    InvRecord(s, r);
    FrameInBlock(s, r, p);
  }

  lemma InvRecord(s: State, r: Rec)
    requires Inv(s) && r in s.records
    ensures RecOk(s, r)
  {
  }

  /** The heap grows by two pages, the second cannot be mapped: the first stays mapped, to a frame that is not held. */
  lemma StrayWitness()
    ensures var (t, a) := Brk(Initial(), HEAP_BASE + 8192, Grant.Frames(4096, 1, true));
            && a == NoMemory && HEAP_BASE / 4096 in t.pages && t.pages[HEAP_BASE / 4096].phys == 4096
            && t.held == map[] && t.records == []
  {
    assert PageUp(HEAP_BASE + 8192) == HEAP_BASE + 8192;
    assert MapRange(map[], HEAP_BASE / 4096, 0, 4096, WRITABLE_USER) == map[];
  }
}
