/** What every run of the kernel heap keeps. */
module HeapProofs {
  import opened Machine
  import opened Alignment
  import opened Regions
  import opened HeapModel

  // ------------------------------------------------------------- one splice

  /** mid cuts the stretch lo .. hi of the list into other blocks, leaving nothing out. */
  ghost predicate Recut(bs: seq<Region>, lo: nat, hi: nat, mid: seq<Region>)
    requires lo < hi <= |bs|
  {
    && WellFormed(mid)
    && TotalSize(mid) == TotalSize(bs[lo..hi])
    && (forall m :: 0 <= m < |mid| ==> bs[lo].start <= mid[m].start && mid[m].End() <= bs[hi - 1].End())
    && (forall x :: Covered(mid, x) <==> Covered(bs[lo..hi], x))
  }

  lemma RecutKeeps(bs: seq<Region>, lo: nat, hi: nat, mid: seq<Region>, donated: seq<Region>)
    requires lo < hi <= |bs| && WellFormed(bs) && Recut(bs, lo, hi, mid) && Tiles(bs, donated)
    ensures WellFormed(Splice(bs, lo, hi, mid)) && Tiles(Splice(bs, lo, hi, mid), donated)
  {
    SpliceOrdered(bs, lo, hi, mid);
    SpliceMembers(bs, lo, hi, mid);
    SpliceTotal(bs, lo, hi, mid);
    forall x ensures Covered(Splice(bs, lo, hi, mid), x) <==> Covered(bs, x) { SpliceCovered(bs, lo, hi, mid, x); }
  }

  /** A free block cut into up to three pieces that meet end to end. */
  lemma CutIsRecut(bs: seq<Region>, k: nat, mid: seq<Region>)
    requires WellFormed(bs) && k < |bs| && 1 <= |mid| <= 3
    requires mid[0].start == bs[k].start && mid[|mid| - 1].End() == bs[k].End()
    requires forall m :: 0 <= m < |mid| ==> mid[m].size >= HEADER
    requires forall m :: 0 <= m < |mid| - 1 ==> mid[m].End() == mid[m + 1].start
    ensures Recut(bs, k, k + 1, mid)
  {
    var b := bs[k];
    assert b in bs && bs[k..k + 1] == [b];
    CutTotal(mid);
    CutTotal([b]);
    forall m | m in mid ensures Solid(m) { }
    assert mid[0].start <= mid[|mid| - 1].start;
    forall x ensures Covered(mid, x) <==> Covered([b], x) {
      if In(b, x) {
        assert In([b][0], x);
        var m := if In(mid[0], x) then 0 else if |mid| > 1 && In(mid[1], x) then 1 else |mid| - 1;
        assert In(mid[m], x);
      } else {
        assert forall m :: 0 <= m < |mid| ==> !In(mid[m], x);
      }
    }
  }

  lemma CutTotal(mid: seq<Region>)
    requires 1 <= |mid| <= 3
    requires forall m :: 0 <= m < |mid| - 1 ==> mid[m].End() == mid[m + 1].start
    ensures TotalSize(mid) == mid[|mid| - 1].End() - mid[0].start
  {
    if |mid| == 2 { assert mid[1..][1..] == []; }
    if |mid| == 3 { assert mid[1..][1..] == [mid[2]]; assert [mid[2]][1..] == []; }
  }

  // -------------------------------------------------------------- allocation

  /** Cutting a free block so that its one used piece starts at `header`. */
  lemma CutKeeps(bs: seq<Region>, k: nat, mid: seq<Region>, header: nat, bytes: nat, donated: seq<Region>,
                 live: map<nat, nat>)
    requires WellFormed(bs) && Tiles(bs, donated) && LiveMatches(bs, live)
    requires k < |bs| && !bs[k].used && Recut(bs, k, k + 1, mid) && bytes > 0
    requires In(bs[k], header) && UsedStart(mid, header)
    requires forall m :: m in mid && m.used ==> m.start == header && m.size >= bytes
    ensures header !in live
    ensures WellFormed(Splice(bs, k, k + 1, mid)) && Tiles(Splice(bs, k, k + 1, mid), donated)
    ensures LiveMatches(Splice(bs, k, k + 1, mid), live[header := bytes])
  {
    RecutKeeps(bs, k, k + 1, mid, donated);
    NotLive(bs, k, header, live);
    CarvedIsLive(bs, k, mid, header, bytes, live);
  }

  /** Pieces that meet end to end, span b, and have one used piece at `header`. */
  ghost predicate CutsOut(b: Region, mid: seq<Region>, header: nat, bytes: nat) {
    && 1 <= |mid| <= 3
    && mid[0].start == b.start && mid[|mid| - 1].End() == b.End()
    && (forall m :: 0 <= m < |mid| ==> mid[m].size >= HEADER)
    && (forall m :: 0 <= m < |mid| - 1 ==> mid[m].End() == mid[m + 1].start)
    && UsedStart(mid, header)
    && (forall m :: m in mid && m.used ==> m.start == header && m.size >= bytes)
  }

  lemma CutBlockKeeps(h: Heap, k: nat, mid: seq<Region>, header: nat, bytes: nat,
                      donated: seq<Region>, live: map<nat, nat>)
    requires HeapInv(h.blocks, donated, live) && k < |h.blocks| && !h.blocks[k].used && bytes > 0
    requires CutsOut(h.blocks[k], mid, header, bytes) && In(h.blocks[k], header)
    ensures header !in live && HeapInv(Splice(h.blocks, k, k + 1, mid), donated, live[header := bytes])
  {
    CutIsRecut(h.blocks, k, mid);
    CutKeeps(h.blocks, k, mid, header, bytes, donated, live);
  }

  lemma SplitShape(b: Region, size: nat)
    requires Holds(b, size)
    ensures CutsOut(b, SplitBlock(b, size), b.start, HEADER + size)
  {
    var mid := SplitBlock(b, size);
    assert mid[0] in mid;
  }

  lemma TakeKeeps(h: Heap, k: nat, size: nat, donated: seq<Region>, live: map<nat, nat>)
    requires HeapInv(h.blocks, donated, live) && k < |h.blocks| && Holds(h.blocks[k], size)
    ensures var a := h.blocks[k].start;
            a > 0 && a !in live && HeapInv(TakeBlock(h, k, size).blocks, donated, live[a := HEADER + size])
  {
    assert h.blocks[k] in h.blocks;
    SplitShape(h.blocks[k], size);
    CutBlockKeeps(h, k, SplitBlock(h.blocks[k], size), h.blocks[k].start, HEADER + size, donated, live);
  }

  lemma AlignedSplitShape(b: Region, d: nat, size: nat)
    requires b.start + HEADER <= d && d + size <= b.End()
    requires d == b.start + HEADER || d >= b.start + 2 * HEADER + MIN_SPLIT
    ensures CutsOut(b, AlignedSplit(b, d, size), d - HEADER, HEADER + size)
  {
    var mid := AlignedSplit(b, d, size);
    var u := if d - HEADER == b.start then 0 else 1;
    assert mid[u] in mid && mid[u].used;
  }

  /** The same for an aligned cut, given its pieces and the header of the used one. */
  lemma TakeAlignedKeeps(h: Heap, k: nat, d: nat, size: nat, header: nat, mid: seq<Region>,
                         donated: seq<Region>, live: map<nat, nat>)
    requires HeapInv(h.blocks, donated, live) && k < |h.blocks| && !h.blocks[k].used
    requires h.blocks[k].start + HEADER <= d && d + size <= h.blocks[k].End()
    requires d == h.blocks[k].start + HEADER || d >= h.blocks[k].start + 2 * HEADER + MIN_SPLIT
    requires header == d - HEADER && mid == AlignedSplit(h.blocks[k], d, size)
    ensures header !in live
    ensures HeapInv(Splice(h.blocks, k, k + 1, mid), donated, live[header := HEADER + size])
  {
    hide HeapInv, Splice;
    AlignedSplitShape(h.blocks[k], d, size);
    CutBlockKeeps(h, k, mid, header, HEADER + size, donated, live);
  }

  /** An accepted candidate is aligned. */
  lemma {:induction false} AlignedDataIsAligned(b: Region, size: nat, alignment: nat, data: nat)
    requires alignment > 0 && Divides(alignment, data)
    ensures Divides(alignment, AlignedData(b, size, alignment, data))
    decreases b.End() - data
  {
    if !StopsAt(b, size, data) { AlignedDataIsAligned(b, size, alignment, data + alignment); }
  }

  // ---------------------------------------------------------- free and merge

  lemma TryMergeKeeps(h: Heap, k: nat, donated: seq<Region>, live: map<nat, nat>)
    requires HeapInv(h.blocks, donated, live)
    ensures HeapInv(TryMerge(h, k).blocks, donated, live)
  {
    var bs := h.blocks;
    if CanMerge(bs, k) {
      var one := Merged(bs, k);
      assert bs[k] in bs && bs[k + 1] in bs;
      MergeIsRecut(bs, k);
      RecutKeeps(bs, k, k + 2, [one], donated);
      MergedStaysLive(bs, k, one, live);
    }
  }

  lemma MergeIsRecut(bs: seq<Region>, k: nat)
    requires WellFormed(bs) && CanMerge(bs, k)
    ensures Recut(bs, k, k + 2, [Merged(bs, k)])
  {
    var a, b, one := bs[k], bs[k + 1], Merged(bs, k);
    assert a in bs && b in bs && bs[k..k + 2] == [a, b];
    CutTotal([a, b]);
    CutTotal([one]);
    forall x ensures Covered([one], x) <==> Covered([a, b], x) {
      if In(one, x) { assert In([one][0], x); assert In([a, b][if In(a, x) then 0 else 1], x); }
    }
  }

  lemma MergedStaysLive(bs: seq<Region>, k: nat, one: Region, live: map<nat, nat>)
    requires Ordered(bs) && LiveMatches(bs, live) && CanMerge(bs, k) && !one.used
    ensures LiveMatches(Splice(bs, k, k + 2, [one]), live)
  {
    assert bs[k..k + 2] == [bs[k], bs[k + 1]];
    SpliceKeepsLive(bs, k, k + 2, [one], live, live);
  }

  lemma MarkFreeKeeps(h: Heap, k: nat, donated: seq<Region>, live: map<nat, nat>)
    requires HeapInv(h.blocks, donated, live) && k < |h.blocks| && h.blocks[k].used
    ensures HeapInv(MarkFree(h, k).blocks, donated, live - {h.blocks[k].start})
  {
    var bs, one := h.blocks, h.blocks[k].(used := false);
    assert bs[k] in bs;
    CutIsRecut(bs, k, [one]);
    RecutKeeps(bs, k, k + 1, [one], donated);
    MergedIsFreed(bs, k, k + 1, k, one, live);
  }

  lemma FreeKeeps(h: Heap, k: nat, donated: seq<Region>, live: map<nat, nat>)
    requires HeapInv(h.blocks, donated, live) && k < |h.blocks| && h.blocks[k].used
    ensures HeapInv(FreeBlock(h, k).blocks, donated, live - {h.blocks[k].start})
  {
    hide HeapInv;
    var after, marked := live - {h.blocks[k].start}, MarkFree(h, k);
    MarkFreeKeeps(h, k, donated, live);
    TryMergeKeeps(marked, k, donated, after);
    TryMergeKeeps(TryMerge(marked, k), if k > 0 then k - 1 else 0, donated, after);
  }

  // -------------------------------------------------------------- add region

  lemma InsertTiles(bs: seq<Region>, r: Region, p: nat, donated: seq<Region>)
    requires p <= |bs| && Tiles(bs, donated)
    ensures Tiles(Splice(bs, p, p, [r]), donated + [r])
  {
    var s := Splice(bs, p, p, [r]);
    SpliceTotal(bs, p, p, [r]);
    TotalSizeConcat(donated, [r]);
    assert bs[p..p] == [];
    forall x ensures Covered(s, x) <==> Covered(donated + [r], x) {
      SpliceCovered(bs, p, p, [r], x);
      CoveredConcat(donated, [r], x);
    }
  }

  lemma InsertOrdered(bs: seq<Region>, r: Region, p: nat)
    requires WellFormed(bs) && Solid(r) && p <= |bs|
    requires forall j :: 0 <= j < p ==> bs[j].End() <= r.start
    requires forall j :: p <= j < |bs| ==> r.End() <= bs[j].start
    ensures WellFormed(Splice(bs, p, p, [r]))
  {
    SpliceMembers(bs, p, p, [r]);
  }

  lemma InsertLive(bs: seq<Region>, r: Region, p: nat, live: map<nat, nat>)
    requires p <= |bs| && !r.used && LiveMatches(bs, live)
    ensures LiveMatches(Splice(bs, p, p, [r]), live)
  {
    SpliceMembers(bs, p, p, [r]);
    assert forall b :: b in bs <==> b in bs[..p] || b in bs[p..];
  }

  /** Every block lies wholly before or wholly after the insertion point. */
  lemma InsertSides(bs: seq<Region>, r: Region, p: nat)
    requires WellFormed(bs) && Apart(bs, r) && Solid(r) && p == InsertPos(bs, 0, r.start)
    ensures forall j :: 0 <= j < p ==> bs[j].End() <= r.start
    ensures forall j :: p <= j < |bs| ==> r.End() <= bs[j].start
  {
    forall j | 0 <= j < p ensures bs[j].End() <= r.start { assert bs[j] in bs; }
    forall j | p <= j < |bs| ensures r.End() <= bs[j].start {
      assert bs[j] in bs && bs[p].start <= bs[j].start;
    }
  }

  lemma InsertKeeps(h: Heap, r: Region, donated: seq<Region>, live: map<nat, nat>)
    requires HeapInv(h.blocks, donated, live) && Solid(r) && !r.used && Apart(h.blocks, r)
    ensures HeapInv(Insert(h, r).blocks, donated + [r], live)
  {
    var bs, p := h.blocks, InsertPos(h.blocks, 0, r.start);
    InsertSides(bs, r, p);
    InsertOrdered(bs, r, p);
    InsertTiles(bs, r, p, donated);
    InsertLive(bs, r, p, live);
  }

  lemma AddRegionKeeps(h: Heap, r: Region, donated: seq<Region>, live: map<nat, nat>)
    requires HeapInv(h.blocks, donated, live) && Solid(r) && !r.used && Apart(h.blocks, r)
    ensures HeapInv(AddRegion(h, r).blocks, donated + [r], live)
  {
    var p := InsertPos(h.blocks, 0, r.start);
    var h1 := Insert(h, r);
    InsertKeeps(h, r, donated, live);
    if p > 0 && CanMerge(h1.blocks, p - 1) {
      TryMergeKeeps(h1, p - 1, donated + [r], live);
      TryMergeKeeps(TryMerge(h1, p - 1), p - 1, donated + [r], live);
    } else {
      TryMergeKeeps(h1, p, donated + [r], live);
    }
  }

  // -------------------------------------------------------------------- runs

  lemma PlainKeeps(s: System, size: nat)
    requires SystemInv(s)
    ensures SystemInv(Plain(s, size).0)
    ensures var p := Plain(s, size).1; p != 0 ==>
              p > HEADER && p - HEADER !in s.live && p - HEADER in Plain(s, size).0.live
  {
    hide WellFormed, Tiles, LiveMatches;
    var k := FindBlock(s.heap.blocks, 0, Rounded(size));
    if size > 0 && k < |s.heap.blocks| {
      TakeKeeps(s.heap, k, Rounded(size), s.donated, s.live);
    }
  }

  lemma AlignedCutKeeps(s: System, k: nat, d: nat, n: nat, header: nat, h: Heap)
    requires SystemInv(s) && k < |s.heap.blocks| && !s.heap.blocks[k].used
    requires s.heap.blocks[k].start + HEADER <= d && d + n <= s.heap.blocks[k].End()
    requires d == s.heap.blocks[k].start + HEADER || d >= s.heap.blocks[k].start + 2 * HEADER + MIN_SPLIT
    requires header == d - HEADER && h == TakeAligned(s.heap, k, d, n)
    ensures header > 0 && header !in s.live && HeapInv(h.blocks, s.donated, s.live[header := HEADER + n])
  {
    assert s.heap.blocks[k] in s.heap.blocks;
    TakeAlignedKeeps(s.heap, k, d, n, header, AlignedSplit(s.heap.blocks[k], d, n), s.donated, s.live);
  }

  lemma AlignedKeeps(s: System, size: nat, alignment: nat)
    requires SystemInv(s)
    ensures SystemInv(Aligned(s, size, alignment).0)
    ensures var p := Aligned(s, size, alignment).1; p != 0 ==> p > HEADER && p - HEADER !in s.live
  {
    hide WellFormed, Tiles, LiveMatches;
    if size > 0 && alignment <= MIN_ALIGNMENT {
      PlainKeeps(s, size);
    } else if size > 0 && PowerOfTwo(alignment) {
      var bs, n := s.heap.blocks, Rounded(size);
      var k := FindAligned(bs, 0, n, alignment);
      if k < |bs| {
        var d := AlignedIn(bs[k], n, alignment);
        AlignedCutKeeps(s, k, d, n, d - HEADER, TakeAligned(s.heap, k, d, n));
      }
    }
  }

  lemma LiveIsFound(bs: seq<Region>, live: map<nat, nat>, a: nat)
    requires Ordered(bs) && LiveMatches(bs, live) && a in live
    ensures var k := IndexOf(bs, 0, a); k < |bs| && bs[k].used
  {
    assert UsedStart(bs, a);
    var r :| r in bs && r.used && r.start == a;
    var i :| 0 <= i < |bs| && bs[i] == r;
    OrderedStarts(bs, i, IndexOf(bs, 0, a));
  }

  lemma FreePtrKeeps(s: System, ptr: nat)
    requires SystemInv(s) && ptr > HEADER && ptr - HEADER in s.live
    ensures SystemInv(Step(s, FreePtr(ptr)))
  {
    hide Tiles, LiveMatches, Ordered;
    LiveIsFound(s.heap.blocks, s.live, ptr - HEADER);
    FreeKeeps(s.heap, IndexOf(s.heap.blocks, 0, ptr - HEADER), s.donated, s.live);
  }

  lemma StepKeeps(s: System, op: Op)
    requires SystemInv(s) && ValidOp(s, op)
    ensures SystemInv(Step(s, op))
  {
    match op
    case Donate(base, bytes) =>
      if base != 0 && bytes > HEADER { AddRegionKeeps(s.heap, Region(base, bytes, false), s.donated, s.live); }
    case Allocate(size) => PlainKeeps(s, size);
    case AllocateAligned(size, alignment) => AlignedKeeps(s, size, alignment);
    case FreePtr(ptr) => if ptr != 0 { FreePtrKeeps(s, ptr); }
  }

  lemma {:induction false} RunKeeps(s: System, ops: seq<Op>)
    requires SystemInv(s) && ValidRun(s, ops)
    ensures SystemInv(Run(s, ops))
    decreases |ops|
  {
    if ops != [] {
      StepKeeps(s, ops[0]);
      RunKeeps(Step(s, ops[0]), ops[1..]);
    }
  }

  /**
   In every run from an empty heap: the forward list is ascending and tiles what was donated,
   every byte a client holds is donated memory, no byte is held twice, and no header lies
   in a client's bytes.
   */
  lemma EveryRunIsSafe(ops: seq<Op>, a: nat, b: nat, x: int)
    requires ValidRun(EMPTY_SYSTEM, ops)
    ensures var s := Run(EMPTY_SYSTEM, ops);
            && Ordered(s.heap.blocks) && Tiles(s.heap.blocks, s.donated)
            && (a in s.live && a + HEADER <= x < a + s.live[a] ==>
                  && Covered(s.donated, x)
                  && (b in s.live && b + HEADER <= x < b + s.live[b] ==> a == b)
                  && (forall r :: r in s.heap.blocks ==> !(r.start <= x < r.start + HEADER)))
  {
    RunKeeps(EMPTY_SYSTEM, ops);
    var s := Run(EMPTY_SYSTEM, ops);
    if a in s.live && a + HEADER <= x < a + s.live[a] {
      LiveDisjoint(s.heap.blocks, s.live, a, b, x);
      assert UsedStart(s.heap.blocks, a);
      var q :| q in s.heap.blocks && q.used && q.start == a;
      forall r | r in s.heap.blocks ensures !(r.start <= x < r.start + HEADER) {
        assert Solid(r);
        if In(r, x) { OrderedDisjoint(s.heap.blocks, r, q, x); }
      }
    }
  }

  // ------------------------------------------------- the 64-bit aligned search

  /** Without a wrap the 64-bit search ends where the unbounded one does; with one, nothing fits. */
  lemma {:induction false} SearchIn64(b: Region, size: nat, alignment: nat, data: nat)
    requires alignment > 0 && b.End() < U64
    ensures var d := AlignedData64(b, size, alignment, data);
            if d + size < U64 then d == AlignedData(b, size, alignment, data)
            else AlignedData(b, size, alignment, data) + size > b.End()
    decreases b.start + 2 * HEADER + MIN_SPLIT - data
  {
    if !StopsAt64(b, size, data) { SearchIn64(b, size, alignment, data + alignment); }
  }

  /** A block passes the 64-bit test if it holds the request, or by a wrapped end, never both. */
  lemma HoldsIn64(b: Region, size: nat, alignment: nat)
    requires alignment > 0 && b.End() < U64
    ensures HoldsAligned64(b, size, alignment) <==> HoldsAligned(b, size, alignment) || Bogus(b, size, alignment)
    ensures !(HoldsAligned(b, size, alignment) && Bogus(b, size, alignment))
    ensures HoldsAligned(b, size, alignment) ==> AlignedIn64(b, size, alignment) == AlignedIn(b, size, alignment)
  {
    hide AlignedData, AlignedData64;
    SearchIn64(b, size, alignment, AlignUp(b.start + HEADER, alignment));
    SmallEnd(AlignedIn64(b, size, alignment) + size);
  }

  lemma SmallEnd(x: nat)
    ensures x < U64 ==> x % U64 == x
  {
  }

  /** What the search returns lies inside its block if and only if its end does not wrap. */
  lemma AlignedFitIsReal(bs: seq<Region>, size: nat, alignment: nat)
    requires alignment > 0 && WellFormed(bs)
    ensures var k := FindAligned64(bs, 0, size, alignment);
            k < |bs| ==> var d := AlignedIn64(bs[k], size, alignment);
                         (d + size <= bs[k].End() <==> d + size < U64)
  {
    hide AlignedIn64;
    var k := FindAligned64(bs, 0, size, alignment);
    if k < |bs| {
      assert bs[k] in bs && Solid(bs[k]);
      SmallEnd(AlignedIn64(bs[k], size, alignment) + size);
    }
  }

  /** The 64-bit search is the unbounded one if and only if the end of what it found does not wrap. */
  lemma FindIn64(bs: seq<Region>, size: nat, alignment: nat)
    requires alignment > 0 && forall b :: b in bs ==> b.End() < U64
    ensures EndFits(bs, size, alignment) <==>
              var k := FindAligned64(bs, 0, size, alignment);
              && k == FindAligned(bs, 0, size, alignment)
              && (k < |bs| ==> AlignedIn64(bs[k], size, alignment) == AlignedIn(bs[k], size, alignment))
  {
    hide HoldsAligned, HoldsAligned64, AlignedIn, AlignedIn64;
    forall j | 0 <= j < |bs|
      ensures HoldsAligned64(bs[j], size, alignment) <==>
                HoldsAligned(bs[j], size, alignment) || Bogus(bs[j], size, alignment)
      ensures !(HoldsAligned(bs[j], size, alignment) && Bogus(bs[j], size, alignment))
      ensures HoldsAligned(bs[j], size, alignment) ==>
                AlignedIn64(bs[j], size, alignment) == AlignedIn(bs[j], size, alignment)
    {
      assert bs[j] in bs;
      HoldsIn64(bs[j], size, alignment);
    }
  }

  /** The bytes an aligned fit would hand out are all donated memory if and only if their end does not wrap. */
  lemma HandsOutDonated(s: System, size: nat, alignment: nat)
    requires SystemInv(s) && size > 0 && alignment > 0
    ensures var bs := s.heap.blocks; var k := FindAligned64(bs, 0, size, alignment);
            k < |bs| ==> var d := AlignedIn64(bs[k], size, alignment);
                         (EndFits(bs, size, alignment) <==>
                            forall x: int :: d <= x < d + size ==> Covered(s.donated, x))
  {
    hide AlignedIn64, HoldsAligned64;
    var bs := s.heap.blocks;
    var k := FindAligned64(bs, 0, size, alignment);
    if k < |bs| {
      var d := AlignedIn64(bs[k], size, alignment);
      AlignedFitIsReal(bs, size, alignment);
      if d + size < U64 {
        forall x: int | d <= x < d + size ensures Covered(s.donated, x) { assert In(bs[k], x); assert Covered(bs, x); }
      } else {
        var x := Max(d, U64 - 1);
        assert !Covered(bs, x) by {
          forall i | 0 <= i < |bs| ensures !In(bs[i], x) { assert bs[i] in bs && Solid(bs[i]); }
        }
        assert d <= x < d + size && !Covered(s.donated, x);
      }
    }
  }

  lemma {:induction false} DataBound64(b: Region, size: nat, alignment: nat, data: nat)
    requires alignment > 0
    ensures var end := b.start + 2 * HEADER + MIN_SPLIT;
            AlignedData64(b, size, alignment, data) < if data < end then end + alignment else data + 1
    decreases b.start + 2 * HEADER + MIN_SPLIT - data
  {
    if !StopsAt64(b, size, data) { DataBound64(b, size, alignment, data + alignment); }
  }

  /** Sizes and alignments under 2^62 are always safe. */
  lemma SmallRequestsAreReal(bs: seq<Region>, size: nat, alignment: nat)
    requires 0 < alignment < 0x4000_0000_0000_0000 && size <= 0x4000_0000_0000_0000 && WellFormed(bs)
    ensures EndFits(bs, size, alignment)
  {
    hide AlignedData64, AlignUp;
    var k := FindAligned64(bs, 0, size, alignment);
    if k < |bs| {
      assert bs[k] in bs && Solid(bs[k]);
      DataBound64(bs[k], size, alignment, AlignUp(bs[k].start + HEADER, alignment));
    }
  }

  /** A request of 2^64 - 8192 bytes passes the test on a block of 8192. */
  lemma BogusFitWitness()
    ensures Bogus(Region(4096, 8192, false), 0xFFFF_FFFF_FFFF_E000, 4096)
    ensures FindAligned64([Region(4096, 8192, false)], 0, 0xFFFF_FFFF_FFFF_E000, 4096) == 0
  {
    assert AlignUp(4096 + HEADER, 4096) == 8192 by { assert Divides(4096, 8192); }
  }

  // --------------------------------------------------------------- alignment

  /** 16-byte rounding holds the request except when the 64-bit sum wraps. */
  lemma RoundedHoldsRequest(size: nat)
    requires size < U64
    ensures Rounded(size) >= size <==> size <= U64 - 16
    ensures Rounded(size) % 16 == 0
    ensures size > U64 - 16 ==> Rounded(size) == 0
  {
    AlignUp16(size);
  }

  lemma SpliceAligned16(bs: seq<Region>, i: nat, j: nat, mid: seq<Region>)
    requires i <= j <= |bs| && Aligned16(bs) && Aligned16(mid)
    ensures Aligned16(Splice(bs, i, j, mid))
  {
    SpliceMembers(bs, i, j, mid);
  }

  lemma MergedAligned16(bs: seq<Region>, k: nat)
    requires Aligned16(bs) && CanMerge(bs, k)
    ensures Aligned16([Merged(bs, k)])
  {
    assert bs[k] in bs && bs[k + 1] in bs;
    Multiples16(bs[k].size, bs[k + 1].size);
  }

  lemma TryMergeAligned16(h: Heap, k: nat)
    requires Aligned16(h.blocks)
    ensures Aligned16(TryMerge(h, k).blocks)
  {
    if CanMerge(h.blocks, k) {
      assert Aligned16([Merged(h.blocks, k)]) by { MergedAligned16(h.blocks, k); }
      hide Aligned16;
      SpliceAligned16(h.blocks, k, k + 2, [Merged(h.blocks, k)]);
    }
  }

  lemma FreeAligned16(h: Heap, k: nat)
    requires Aligned16(h.blocks) && k < |h.blocks|
    ensures Aligned16(FreeBlock(h, k).blocks)
  {
    hide Aligned16;
    assert Aligned16([h.blocks[k].(used := false)]) by { FreedAligned16(h.blocks, k); }
    SpliceAligned16(h.blocks, k, k + 1, [h.blocks[k].(used := false)]);
    TryMergeAligned16(MarkFree(h, k), k);
    TryMergeAligned16(TryMerge(MarkFree(h, k), k), if k > 0 then k - 1 else 0);
  }

  lemma FreedAligned16(bs: seq<Region>, k: nat)
    requires Aligned16(bs) && k < |bs|
    ensures Aligned16([bs[k].(used := false)])
  {
    assert bs[k] in bs;
  }

  lemma AddAligned16(h: Heap, r: Region)
    requires Aligned16(h.blocks) && r.start % 16 == 0 && r.size % 16 == 0
    ensures Aligned16(AddRegion(h, r).blocks)
  {
    var p := InsertPos(h.blocks, 0, r.start);
    assert Aligned16([r]);
    SpliceAligned16(h.blocks, p, p, [r]);
    hide Aligned16;
    var h1 := Insert(h, r);
    if p > 0 && CanMerge(h1.blocks, p - 1) {
      TryMergeAligned16(h1, p - 1);
      TryMergeAligned16(TryMerge(h1, p - 1), p - 1);
    } else {
      TryMergeAligned16(h1, p);
    }
  }

  lemma SplitAligned16(b: Region, size: nat)
    requires Holds(b, size) && b.start % 16 == 0 && b.size % 16 == 0 && size % 16 == 0
    ensures Aligned16(SplitBlock(b, size))
  {
    Multiples16(size, HEADER);
    Multiples16(b.start, HEADER + size);
    Multiples16(b.size, HEADER + size);
    assert b.size - HEADER - size == b.size - (HEADER + size);
  }

  lemma AlignedMember(bs: seq<Region>, k: nat)
    requires Aligned16(bs) && k < |bs|
    ensures bs[k].start % 16 == 0 && bs[k].size % 16 == 0
  {
    assert bs[k] in bs;
  }

  lemma PlainAligned16(s: System, size: nat)
    requires Aligned16(s.heap.blocks) && size < U64
    ensures Aligned16(Plain(s, size).0.heap.blocks) && Plain(s, size).1 % 16 == 0
  {
    hide Aligned16, SplitBlock, Rounded;
    var bs, n := s.heap.blocks, Rounded(size);
    var k := FindBlock(bs, 0, n);
    RoundedHoldsRequest(size);
    if k < |bs| {
      AlignedMember(bs, k);
      SplitAligned16(bs[k], n);
      SpliceAligned16(bs, k, k + 1, SplitBlock(bs[k], n));
    }
  }

  lemma AlignedSplitAligned16(b: Region, d: nat, size: nat)
    requires b.start + HEADER <= d && d + size <= b.End()
    requires b.start % 16 == 0 && b.size % 16 == 0 && d % 16 == 0 && size % 16 == 0
    ensures Aligned16(AlignedSplit(b, d, size))
  {
    Multiples16(d, size);
    Multiples16(d, HEADER);
    Multiples16(d - HEADER, b.start);
    Multiples16(HEADER, size);
    Multiples16(b.start, b.size);
    Multiples16(b.start + b.size, d + size);
    Multiples16(HEADER + size, b.start + b.size - (d + size));
  }

  /** Aligned requests get what they ask for, and leave the blocks 16-byte aligned. */
  lemma AlignedResult(s: System, size: nat, alignment: nat)
    requires Aligned16(s.heap.blocks) && size < U64 && alignment > MIN_ALIGNMENT
    ensures Aligned16(Aligned(s, size, alignment).0.heap.blocks)
    ensures Divides(alignment, Aligned(s, size, alignment).1)
  {
    var bs, n := s.heap.blocks, Rounded(size);
    if size > 0 && PowerOfTwo(alignment) {
      var k := FindAligned(bs, 0, n, alignment);
      if k < |bs| {
        var d := AlignedIn(bs[k], n, alignment);
        AlignedDataIsAligned(bs[k], n, alignment, AlignUp(bs[k].start + HEADER, alignment));
        PowerOfTwoAbove16(alignment);
        DividesIsMod(16, alignment);
        DividesTrans(16, alignment, d);
        DividesIsMod(16, d);
        RoundedHoldsRequest(size);
        assert bs[k] in bs;
        AlignedSplitAligned16(bs[k], d, n);
        hide Aligned16, AlignedSplit;
        SpliceAligned16(bs, k, k + 1, AlignedSplit(bs[k], d, n));
      }
    }
  }

  /** Donations of 16-byte aligned memory keep every block, so every pointer, aligned. */
  lemma StepKeepsAligned16(s: System, op: Op)
    requires Aligned16(s.heap.blocks) && ValidOp(s, op)
    requires op.Donate? ==> op.base % 16 == 0 && op.bytes % 16 == 0
    ensures Aligned16(Step(s, op).heap.blocks)
  {
    hide Aligned16;
    match op
    case Donate(base, bytes) => if base != 0 && bytes > HEADER { AddAligned16(s.heap, Region(base, bytes, false)); }
    case Allocate(size) => PlainAligned16(s, size);
    case AllocateAligned(size, alignment) =>
      if alignment > MIN_ALIGNMENT { AlignedResult(s, size, alignment); }
      else if size > 0 { PlainAligned16(s, size); }
    case FreePtr(ptr) =>
      if ptr > HEADER {
        var k := IndexOf(s.heap.blocks, 0, ptr - HEADER);
        if k < |s.heap.blocks| { FreeAligned16(s.heap, k); }
      }
  }

  lemma {:induction false} RunKeepsAligned16(s: System, ops: seq<Op>)
    requires Aligned16(s.heap.blocks) && ValidRun(s, ops)
    requires forall op :: op in ops && op.Donate? ==> op.base % 16 == 0 && op.bytes % 16 == 0
    ensures Aligned16(Run(s, ops).heap.blocks)
    decreases |ops|
  {
    if ops != [] {
      hide Aligned16;
      StepKeepsAligned16(s, ops[0]);
      RunKeepsAligned16(Step(s, ops[0]), ops[1..]);
    }
  }

  // --------------------------------------------------------------- expansion

  /** Some free block holds the whole of r. */
  ghost predicate FreeAround(bs: seq<Region>, r: Region) {
    exists b :: b in bs && !b.used && b.start <= r.start && r.End() <= b.End()
  }

  lemma TryMergeKeepsAround(h: Heap, k: nat, r: Region)
    requires FreeAround(h.blocks, r)
    ensures FreeAround(TryMerge(h, k).blocks, r)
  {
    var bs := h.blocks;
    var b :| b in bs && !b.used && b.start <= r.start && r.End() <= b.End();
    if CanMerge(bs, k) {
      var one := Merged(bs, k);
      SpliceMembers(bs, k, k + 2, [one]);
      assert bs == bs[..k] + [bs[k], bs[k + 1]] + bs[k + 2..];
      if b == bs[k] || b == bs[k + 1] { assert one in TryMerge(h, k).blocks; }
    }
  }

  lemma AddedIsAround(h: Heap, r: Region)
    requires !r.used
    ensures FreeAround(AddRegion(h, r).blocks, r)
  {
    var p := InsertPos(h.blocks, 0, r.start);
    var h1 := Insert(h, r);
    assert h1.blocks[p] == r;
    assert FreeAround(h1.blocks, r);
    hide FreeAround;
    if p > 0 && CanMerge(h1.blocks, p - 1) {
      TryMergeKeepsAround(h1, p - 1, r);
      TryMergeKeepsAround(TryMerge(h1, p - 1), p - 1, r);
    } else {
      TryMergeKeepsAround(h1, p, r);
    }
  }

  /** The aligned search ends early in a block with room for one more alignment step. */
  lemma {:induction false} AlignedDataBound(b: Region, size: nat, alignment: nat, data: nat)
    requires alignment > 0 && b.size >= 2 * HEADER + MIN_SPLIT + alignment + size
    requires data < b.start + 2 * HEADER + MIN_SPLIT + alignment
    ensures AlignedData(b, size, alignment, data) < b.start + 2 * HEADER + MIN_SPLIT + alignment
    decreases b.End() - data
  {
    if !StopsAt(b, size, data) { AlignedDataBound(b, size, alignment, data + alignment); }
  }

  lemma GrowIsEnough(size: nat, alignment: nat)
    requires GrowBytes(size, alignment) > 0
    ensures GrowBytes(size, alignment) >= 2 * (size + HEADER + alignment) + PAGE
  {
  }

  lemma LargeBlockHolds(b: Region, size: nat, alignment: nat)
    requires alignment > 0 && !b.used && b.size >= 2 * (size + HEADER + alignment) + PAGE
    ensures Holds(b, size) && HoldsAligned(b, size, alignment)
  {
    AlignedDataBound(b, size, alignment, AlignUp(b.start + HEADER, alignment));
  }

  /**
   The retry after an expansion cannot fail: whatever the heap looked like, a subheap of
   GrowBytes bytes holds the request that did not fit before, plain or aligned.
   */
  lemma ExpansionSuffices(h: Heap, size: nat, alignment: nat, base: nat)
    requires alignment > 0 && GrowBytes(size, alignment) > 0
    ensures var bs := AddRegion(h, Region(base, GrowBytes(size, alignment), false)).blocks;
            FindBlock(bs, 0, size) < |bs| && FindAligned(bs, 0, size, alignment) < |bs|
  {
    hide GrowBytes, AddRegion, HoldsAligned;
    var r := Region(base, GrowBytes(size, alignment), false);
    var bs := AddRegion(h, r).blocks;
    AddedIsAround(h, r);
    GrowIsEnough(size, alignment);
    var b :| b in bs && !b.used && b.start <= r.start && r.End() <= b.End();
    var i :| 0 <= i < |bs| && bs[i] == b;
    LargeBlockHolds(bs[i], size, alignment);
  }
}
