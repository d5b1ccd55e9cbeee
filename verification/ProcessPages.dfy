/** What the memory calls of a process mean for each byte of its address space. */
module ProcessPages {
  import opened Machine
  import opened ProcessModel
  import opened ProcessProofs
  import opened ProcessRuns

  // ----------------------------------------------------------------- mprotect

  /** Every page leads to a whole frame. */
  ghost predicate WholeFrames(s: State) { forall p :: p in s.pages ==> s.pages[p].phys % 4096 == 0 }

  lemma ShrinkWhole(s: State, desired: nat)
    requires WholeFrames(s)
    ensures WholeFrames(Shrink(s, desired).0)
    decreases s.mappedEnd, |s.records|
  {
    if s.mappedEnd > desired && FindTop(s, 0) < |s.records| {
      ShrinkWhole(ShrinkTop(s, FindTop(s, 0), desired), desired);
    }
  }

  lemma AllocWhole(s: State, virt: nat, bytes: nat, flags: nat, grant: Grant)
    requires WholeFrames(s) && ValidGrant(s, bytes, grant)
    ensures WholeFrames(AllocateUserPages(s, virt, bytes, flags, grant).0)
  {
  }

  lemma UnmapWhole(s: State, virt: nat, bytes: nat, phys: nat)
    requires WholeFrames(s)
    ensures WholeFrames(UnmapAndFree(s, virt, bytes, phys))
  {
  }

  lemma BrkWhole(s: State, requested: nat, grant: Grant)
    requires WholeFrames(s) && ValidBrk(s, requested, grant)
    ensures WholeFrames(Brk(s, requested, grant).0)
  {
    hide Shrink, PageUp, ValidGrant, AllocateUserPages, UnmapAndFree;
    var desired := PageUp(requested);
    if requested != 0 && desired > s.mappedEnd {
      var bytes := desired - s.mappedEnd;
      AllocWhole(s, s.mappedEnd, bytes, WRITABLE_USER, grant);
      var (t, phys) := AllocateUserPages(s, s.mappedEnd, bytes, WRITABLE_USER, grant);
      if phys.Some? { UnmapWhole(t, s.mappedEnd, bytes, phys.value); }
    } else {
      ShrinkWhole(s, desired);
    }
  }

  lemma MmapWhole(s: State, length: nat, flags: nat, grant: Grant)
    requires WholeFrames(s) && ValidMmap(s, length, grant)
    ensures WholeFrames(Mmap(s, length, flags, grant).0)
  {
    hide RangeUnmapped, PageUp, ValidGrant, AllocateUserPages, UnmapAndFree;
    var bytes, next := PageUp(length), PageUp(s.mapNext);
    var found := FindBase(s.pages, if next < MMAP_BASE then MMAP_BASE else next, bytes);
    if found.Some? {
      AllocWhole(s, found.value, bytes, flags, grant);
      var (t, phys) := AllocateUserPages(s, found.value, bytes, flags, grant);
      if phys.Some? { UnmapWhole(t.(mapNext := found.value + bytes), found.value, bytes, phys.value); }
    }
  }

  /** In every run pages lead to whole frames, since the page allocator gives out whole pages. */
  lemma StepKeepsWhole(s: State, op: Op)
    requires ValidOp(s, op) && WholeFrames(s)
    ensures WholeFrames(Step(s, op))
  {
    hide Brk, Mmap, PageUp;
    match op
    case SetBreak(requested, grant) => BrkWhole(s, requested, grant);
    case MapAnonymous(length, flags, grant) => MmapWhole(s, length, flags, grant);
    case Unmap(virt, length) =>
    case SetProtection(virt, size, flags) =>
      ProtectPagesChanges(s.pages, virt / 4096, PageUp(virt % 4096 + size) / 4096, flags);
  }

  /** The page of some byte of [virt, virt + size). */
  predicate Touches(p: nat, virt: nat, size: nat) { p * 4096 < virt + size && virt < (p + 1) * 4096 }

  /** A page is touched exactly when it holds a byte of the range. */
  lemma TouchedByByte(p: nat, virt: nat, size: nat)
    requires size > 0
    ensures Touches(p, virt, size) <==> exists x: nat :: virt <= x < virt + size && x / 4096 == p
  {
    if Touches(p, virt, size) {
      var x := if virt < p * 4096 then p * 4096 else virt;
      assert virt <= x < virt + size && x / 4096 == p;
    }
  }

  lemma ProtectedPages(virt: nat, size: nat, p: nat)
    requires size > 0 && virt % 4096 + size + 4095 < U64
    ensures var n := PageUp(virt % 4096 + size) / 4096;
            Touches(p, virt, size) <==> virt / 4096 <= p < virt / 4096 + n
  {
    var end := virt % 4096 + size;
    var n := PageUp(end) / 4096;
    assert n * 4096 == PageUp(end) && end <= n * 4096 < end + 4096;
    assert virt == virt / 4096 * 4096 + virt % 4096;
  }

  /**
   mprotect in bytes: it succeeds exactly when every byte of the range lies on a mapped page, and
   then exactly the pages with such a byte carry the flags; frames and all other pages stay.
   */
  lemma ProtectInBytes(s: State, virt: nat, size: nat, flags: nat)
    requires size > 0 && virt % 4096 + size + 4095 < U64
    requires WholeFrames(s)
    ensures var (t, ok) := Protect(s, virt, size, flags);
            && t == s.(pages := t.pages) && t.pages.Keys == s.pages.Keys
            && (ok <==> forall x: nat :: virt <= x < virt + size ==> x / 4096 in s.pages)
            && (forall p :: p in s.pages ==> t.pages[p].phys == s.pages[p].phys)
            && (forall p :: p in s.pages && !Touches(p, virt, size) ==> t.pages[p] == s.pages[p])
            && (ok ==> forall p :: p in s.pages && Touches(p, virt, size) ==> t.pages[p].flags == flags)
  {
    hide Touches, PageUp;
    var first, n := virt / 4096, PageUp(virt % 4096 + size) / 4096;
    ProtectPagesChanges(s.pages, first, n, flags);
    forall p: nat ensures Touches(p, virt, size) <==> first <= p < first + n { ProtectedPages(virt, size, p); }
    var ok := Protect(s, virt, size, flags).1;
    if ok {
      forall x: nat | virt <= x < virt + size ensures x / 4096 in s.pages {
        TouchedByByte(x / 4096, virt, size);
      }
    }
    if forall x: nat :: virt <= x < virt + size ==> x / 4096 in s.pages {
      forall p | first <= p < first + n ensures p in s.pages {
        TouchedByByte(p, virt, size);
        var x: nat :| virt <= x < virt + size && x / 4096 == p;
      }
    }
  }

  /** A size that wraps protects nothing and is answered with success. */
  lemma ProtectWrapWitness(s: State, flags: nat)
    ensures Protect(s, MMAP_BASE, U64 - 1, flags) == (s, true)
  {
  }

  // --------------------------------------------------------------------- mmap

  /** The pages of [base, base + bytes) lead to consecutive frames with these flags, all others as in `pages`. */
  ghost predicate MappedTo(pages: map<nat, Frame>, after: map<nat, Frame>, base: nat, bytes: nat, phys: nat,
                           flags: nat) {
    forall p: nat ::
      if base <= p * 4096 < base + bytes
      then p in after && after[p] == Frame(phys + (p * 4096 - base), flags)
      else (p in after <==> p in pages) && (p in after ==> after[p] == pages[p])
  }

  ghost predicate Cleared(pages: map<nat, Frame>, after: map<nat, Frame>, base: nat, bytes: nat) {
    forall p: nat ::
      if base <= p * 4096 < base + bytes then p !in after
      else (p in after <==> p in pages) && (p in after ==> after[p] == pages[p])
  }

  lemma RangeIsMapped(pages: map<nat, Frame>, base: nat, bytes: nat, phys: nat, flags: nat)
    requires base % 4096 == 0 && bytes % 4096 == 0
    ensures MappedTo(pages, MapRange(pages, base / 4096, bytes / 4096, phys, flags), base, bytes, phys, flags)
  {
  }

  lemma RangeIsCleared(pages: map<nat, Frame>, base: nat, bytes: nat)
    requires base % 4096 == 0 && bytes % 4096 == 0
    ensures Cleared(pages, UnmapRange(pages, base / 4096, bytes / 4096), base, bytes)
  {
  }

  /**
   A successful mmap: length rounded up to pages, every page of it mapped to the granted frames in
   order with the flags asked for, one record in front, and no other page or record touched.
   */
  lemma MmapInBytes(s: State, length: nat, flags: nat, grant: Grant)
    requires Mmap(s, length, flags, grant).1.Some? && length < U64
    ensures var (t, a) := Mmap(s, length, flags, grant);
            var bytes := PageUp(length);
            && grant.Frames? && a.value % 4096 == 0 && length <= bytes < length + 4096
            && MappedTo(s.pages, t.pages, a.value, bytes, grant.phys, flags)
            && (forall p: nat :: a.value <= p * 4096 < a.value + bytes ==> p !in s.pages)
            && t.records == [Rec(a.value, grant.phys, bytes, true)] + s.records && t.mapNext == a.value + bytes
            && t.brkBase == s.brkBase && t.brkCurrent == s.brkCurrent && t.mappedEnd == s.mappedEnd
  {
    hide MappedTo, RangeUnmapped, MapRange;
    var bytes, next := PageUp(length), PageUp(s.mapNext);
    var base := FindBase(s.pages, if next < MMAP_BASE then MMAP_BASE else next, bytes).value;
    RangeIsMapped(s.pages, base, bytes, grant.phys, flags);
    UnmappedBytes(s.pages, base, bytes);
  }

  lemma UnmappedBytes(pages: map<nat, Frame>, base: nat, bytes: nat)
    requires base % 4096 == 0 && bytes % 4096 == 0 && RangeUnmapped(pages, base / 4096, bytes / 4096)
    ensures forall p: nat :: base <= p * 4096 < base + bytes ==> p !in pages
  {
  }

  /** munmap succeeds exactly for the start and rounded length of a record, and clears exactly its pages. */
  lemma MunmapInBytes(s: State, virt: nat, length: nat)
    requires forall r :: r in s.records ==> r.user % 4096 == 0 && r.size % 4096 == 0 && r.fromPhys && r.raw != r.user
    ensures var (t, ok) := Munmap(s, virt, length);
            && (ok <==> length > 0 && exists r :: r in s.records && r.user == virt && r.size == PageUp(length))
            && (!ok ==> t == s)
            && (ok ==> Cleared(s.pages, t.pages, virt, PageUp(length)))
  {
    hide Cleared, UnmapRange, PageUp;
    var i := FindMapping(s.records, virt, PageUp(length), 0);
    if length > 0 && i < |s.records| {
      assert s.records[i] in s.records;
      RangeIsCleared(s.pages, virt, PageUp(length));
    }
  }

  /** What was mapped can be unmapped with the same length, which gives everything back but the search position. */
  lemma MmapThenMunmap(s: State, length: nat, flags: nat, grant: Grant)
    requires Inv(s) && ValidMmap(s, length, grant) && Fits32(PageUp(length))
    requires Mmap(s, length, flags, grant).1.Some?
    ensures var (t, a) := Mmap(s, length, flags, grant);
            Munmap(t, a.value, length) == (s.(mapNext := t.mapNext), true)
  {
    var (t, a) := Mmap(s, length, flags, grant);
    var bytes := PageUp(length);
    MmapInBytes(s, length, flags, grant);
    var r := Rec(a.value, grant.phys, bytes, true);
    MmapIsAbove(s, length, flags, grant);
    assert t.records[0] == r && IsMapping(r, a.value, bytes);
    assert FindMapping(t.records, a.value, bytes, 0) == 0;
    assert Without(t.records, 0) == s.records;
    SamePagesAgain(s.pages, t.pages, a.value, bytes, grant.phys, flags);
    GrantGoesBack(s, length, flags, grant);
  }

  lemma MmapIsAbove(s: State, length: nat, flags: nat, grant: Grant)
    requires Mmap(s, length, flags, grant).1.Some? && length < U64 && ValidMmap(s, length, grant)
             && Fits32(PageUp(length))
    ensures grant.phys < CEILING < MMAP_BASE <= Mmap(s, length, flags, grant).1.value
  {
    hide RangeUnmapped, MapRange;
  }

  lemma GrantGoesBack(s: State, length: nat, flags: nat, grant: Grant)
    requires Inv(s) && ValidMmap(s, length, grant) && Mmap(s, length, flags, grant).1.Some? && Fits32(PageUp(length))
    ensures Mmap(s, length, flags, grant).0.held - {grant.phys} == s.held
  {
    hide RangeUnmapped, MapRange, Covered, Records;
    GrantIsNew(s, grant.phys, PageUp(length));
  }

  lemma SamePagesAgain(pages: map<nat, Frame>, mapped: map<nat, Frame>, base: nat, bytes: nat, phys: nat, flags: nat)
    requires base % 4096 == 0 && bytes % 4096 == 0 && MappedTo(pages, mapped, base, bytes, phys, flags)
    requires forall p: nat :: base <= p * 4096 < base + bytes ==> p !in pages
    ensures UnmapRange(mapped, base / 4096, bytes / 4096) == pages
  {
    var after := UnmapRange(mapped, base / 4096, bytes / 4096);
    RangeIsCleared(mapped, base, bytes);
    forall p: nat ensures (p in after <==> p in pages) && (p in after ==> after[p] == pages[p]) { }
  }

  // ---------------------------------------------------------------------- brk

  lemma ClearedTwice(a: map<nat, Frame>, b: map<nat, Frame>, c: map<nat, Frame>, low: nat, mid: nat, high: nat)
    requires low <= mid <= high && Cleared(a, b, mid, high - mid) && Cleared(b, c, low, mid - low)
    ensures Cleared(a, c, low, high - low)
  {
    forall p: nat
      ensures if low <= p * 4096 < high then p !in c else (p in c <==> p in a) && (p in c ==> c[p] == a[p])
    {
    }
  }

  /** One round of the shrink loop clears exactly the pages between the new and the old end. */
  lemma RoundClears(s: State, i: nat, desired: nat)
    requires Core(s) && s.brkBase <= desired < s.mappedEnd && desired % 4096 == 0
    requires i < |s.records| && IsTop(s, s.records[i])
    ensures var t := ShrinkTop(s, i, desired);
            desired <= t.mappedEnd < s.mappedEnd && Cleared(s.pages, t.pages, t.mappedEnd, s.mappedEnd - t.mappedEnd)
  {
    hide Cleared, UnmapRange, Covered, FramesOwned, Mapped, Pairwise;
    assert RecOk(s, s.records[i]);
    var t := ShrinkTop(s, i, desired);
    RangeIsCleared(s.pages, t.mappedEnd, s.mappedEnd - t.mappedEnd);
  }

  lemma {:induction false} ShrinkClears(s: State, desired: nat)
    requires Core(s) && s.brkBase <= desired <= s.mappedEnd && desired % 4096 == 0
    ensures Cleared(s.pages, Shrink(s, desired).0.pages, desired, s.mappedEnd - desired)
    decreases s.mappedEnd
  {
    hide Core, Cleared, ShrinkTop;
    if desired == s.mappedEnd {
      NothingCleared(s.pages, desired);
    } else {
      TopExists(s);
      var i := FindTop(s, 0);
      var t := ShrinkTop(s, i, desired);
      RoundClears(s, i, desired);
      ShrinkTopKeeps(s, i, desired);
      RoundKeepsBase(s, i, desired);
      ShrinkClears(t, desired);
      ClearedTwice(s.pages, t.pages, Shrink(t, desired).0.pages, desired, t.mappedEnd, s.mappedEnd);
    }
  }

  lemma RoundKeepsBase(s: State, i: nat, desired: nat)
    requires i < |s.records| && desired < s.mappedEnd && IsTop(s, s.records[i])
    ensures ShrinkTop(s, i, desired).brkBase == s.brkBase
  {
  }

  lemma NothingCleared(pages: map<nat, Frame>, at: nat)
    ensures Cleared(pages, pages, at, 0)
  {
  }

  /**
   A successful brk: above the old end exactly the new pages are mapped, writable and for the user,
   to the granted frames in order; below it exactly the pages past the new end are gone.
   */
  lemma BrkInBytes(s: State, requested: nat, grant: Grant)
    requires Inv(s) && ValidBrk(s, requested, grant) && requested != 0 && Brk(s, requested, grant).1.Break?
    ensures var t := Brk(s, requested, grant).0;
            var end := PageUp(requested);
            && t.mappedEnd == end && requested <= end < requested + 4096
            && if end > s.mappedEnd then
                 && grant.Frames?
                 && MappedTo(s.pages, t.pages, s.mappedEnd, end - s.mappedEnd, grant.phys, 3)
               else Cleared(s.pages, t.pages, end, s.mappedEnd - end)
  {
    hide Cleared, MappedTo, Covered, FramesOwned, Records, MapRange, Shrink, ValidGrant;
    BrkKeeps(s, requested, grant);
    var end := PageUp(requested);
    if end > s.mappedEnd {
      RangeIsMapped(s.pages, s.mappedEnd, end - s.mappedEnd, grant.phys, WRITABLE_USER);
    } else {
      ShrinkClears(s, end);
    }
  }
}
