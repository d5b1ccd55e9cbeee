/**
 When freed memory is whole again: a free merges the block with the free blocks it touches,
 except backwards over a back pointer that names the block itself.
 */
module HeapMerging {
  import opened Alignment
  import opened Regions
  import opened HeapModel
  import opened HeapProofs

  /** No two neighbours are free and touch. */
  ghost predicate AllMerged(bs: seq<Region>) {
    forall k: nat :: k < |bs| ==> !CanMerge(bs, k)
  }

  // ------------------------------------------------------------------ merging

  /** After a merge the pairs are the old ones, but for the merged pair. */
  lemma MergePairs(h: Heap, k: nat, j: nat)
    requires CanMerge(h.blocks, k)
    ensures CanMerge(TryMerge(h, k).blocks, j) <==> CanMerge(h.blocks, if j < k then j else j + 1)
  {
    var bs, after := h.blocks, TryMerge(h, k).blocks;
    assert forall i :: 0 <= i < k ==> after[i] == bs[i];
    assert after[k] == Merged(bs, k);
    assert forall i :: k < i < |after| ==> after[i] == bs[i + 1];
  }

  /** What a free has to do: join the block with each free neighbour it touches. */
  ghost predicate TouchesNext(bs: seq<Region>, k: nat)
    requires k < |bs|
  {
    k + 1 < |bs| && !bs[k + 1].used && bs[k].End() == bs[k + 1].start
  }

  ghost predicate TouchesPrev(bs: seq<Region>, k: nat)
    requires k < |bs|
  {
    k > 0 && !bs[k - 1].used && bs[k - 1].End() == bs[k].start
  }

  lemma MarkedPairs(h: Heap, k: nat, j: nat)
    requires k < |h.blocks| && h.blocks[k].used
    ensures var m := MarkFree(h, k).blocks;
            && |m| == |h.blocks| && (CanMerge(m, k) <==> TouchesNext(h.blocks, k))
            && (k > 0 ==> (CanMerge(m, k - 1) <==> TouchesPrev(h.blocks, k)))
            && (j != k && j + 1 != k ==> (CanMerge(m, j) <==> CanMerge(h.blocks, j)))
  {
    var bs, m := h.blocks, MarkFree(h, k).blocks;
    assert m[k] == bs[k].(used := false) && forall i :: 0 <= i < |bs| && i != k ==> m[i] == bs[i];
  }

  /**
   A free, on any list, is one splice: the block with the next one when that is free and touched,
   and with the previous one when that is free and touched and the back pointer leads to it.
   */
  lemma FreeIsSplice(h: Heap, k: nat)
    requires k < |h.blocks| && h.blocks[k].used
    ensures var bs := h.blocks;
            var lo := if TouchesPrev(bs, k) && bs[k].start !in h.orphans then k - 1 else k;
            var hi := if TouchesNext(bs, k) then k + 2 else k + 1;
            FreeBlock(h, k).blocks == Splice(bs, lo, hi, [Region(bs[lo].start, bs[hi - 1].End() - bs[lo].start, false)])
  {
    hide TryMerge, CanMerge, MarkFree;
    var bs, freed := h.blocks, TryMerge(MarkFree(h, k), k);
    var hi := if TouchesNext(bs, k) then k + 2 else k + 1;
    BackJoined(h, k, hi);
    if k > 0 {
      FreedPairs(h, k);
      if TouchesPrev(bs, k) {
        FrontJoined(bs, freed, k, hi, Region(bs[k].start, bs[hi - 1].End() - bs[k].start, false));
      } else {
        NoMerge(freed, k - 1);
      }
    }
  }

  /** The forward merge of a free. */
  lemma BackJoined(h: Heap, k: nat, hi: nat)
    requires k < |h.blocks| && h.blocks[k].used && hi == if TouchesNext(h.blocks, k) then k + 2 else k + 1
    ensures var bs := h.blocks;
            TryMerge(MarkFree(h, k), k).blocks
              == bs[..k] + [Region(bs[k].start, bs[hi - 1].End() - bs[k].start, false)] + bs[hi..]
  {
    var bs, m := h.blocks, MarkFree(h, k);
    MarkedPairs(h, k, k);
    assert m.blocks[k] == bs[k].(used := false) && m.blocks[..k] == bs[..k] && m.blocks[k + 1..] == bs[k + 1..];
    if hi == k + 2 { assert m.blocks[k + 1] == bs[k + 1] && m.blocks[k + 2..] == bs[k + 2..]; }
  }

  lemma FreedPairs(h: Heap, k: nat)
    requires 0 < k < |h.blocks| && h.blocks[k].used
    ensures CanMerge(TryMerge(MarkFree(h, k), k).blocks, k - 1) <==> TouchesPrev(h.blocks, k)
  {
    hide CanMerge, MarkFree, TouchesPrev;
    MarkedPairs(h, k, k);
    if CanMerge(MarkFree(h, k).blocks, k) { MergePairs(MarkFree(h, k), k, k - 1); }
  }

  lemma NoMerge(h: Heap, k: nat)
    requires !CanMerge(h.blocks, k)
    ensures TryMerge(h, k) == h
  {
  }

  lemma FrontJoined(bs: seq<Region>, freed: Heap, k: nat, hi: nat, one: Region)
    requires 0 < k < hi <= |bs| && freed.blocks == bs[..k] + [one] + bs[hi..]
    requires CanMerge(freed.blocks, k - 1) && bs[k - 1].End() == one.start
    ensures TryMerge(freed, k - 1).blocks
         == bs[..k - 1] + [Region(bs[k - 1].start, one.End() - bs[k - 1].start, false)] + bs[hi..]
  {
    assert freed.blocks[k - 1] == bs[k - 1] && freed.blocks[k] == one;
    assert freed.blocks[..k - 1] == bs[..k - 1] && freed.blocks[k + 1..] == bs[hi..];
  }

  // -------------------------------------------------------------- each operation

  /** Replacing a free block by pieces of it: only its outer borders meet the old neighbours. */
  lemma PiecesMerged(bs: seq<Region>, k: nat, mid: seq<Region>)
    requires AllMerged(bs) && k < |bs| && !bs[k].used && AllMerged(mid) && |mid| > 0
    requires mid[0].used || mid[0].start == bs[k].start
    requires mid[|mid| - 1].used || mid[|mid| - 1].End() == bs[k].End()
    ensures AllMerged(Splice(bs, k, k + 1, mid))
  {
    var after, n := Splice(bs, k, k + 1, mid), |mid|;
    assert forall i :: 0 <= i < k ==> after[i] == bs[i];
    assert forall i :: 0 <= i < n ==> after[k + i] == mid[i];
    assert forall i :: k + n <= i < |after| ==> after[i] == bs[i - n + 1];
    forall j: nat | j < |after| ensures !CanMerge(after, j) {
      hide Splice;
      if j < k {
        assert !CanMerge(bs, j);
      } else if j < k + n - 1 {
        assert !CanMerge(mid, j - k);
      } else {
        assert !CanMerge(bs, j - n + 1);
      }
    }
  }

  lemma PlainMerged(s: System, size: nat)
    requires AllMerged(s.heap.blocks)
    ensures AllMerged(Plain(s, size).0.heap.blocks)
  {
    var bs, n := s.heap.blocks, Rounded(size);
    var k := FindBlock(bs, 0, n);
    if size > 0 && k < |bs| { PiecesMerged(bs, k, SplitBlock(bs[k], n)); }
  }

  lemma AlignedMerged(s: System, size: nat, alignment: nat)
    requires AllMerged(s.heap.blocks)
    ensures AllMerged(Aligned(s, size, alignment).0.heap.blocks)
  {
    hide AlignedIn;
    var bs, n := s.heap.blocks, Rounded(size);
    if size > 0 && alignment <= MIN_ALIGNMENT {
      PlainMerged(s, size);
    } else if size > 0 && PowerOfTwo(alignment) {
      var k := FindAligned(bs, 0, n, alignment);
      if k < |bs| { PiecesMerged(bs, k, AlignedSplit(bs[k], AlignedIn(bs[k], n, alignment), n)); }
    }
  }

  /** Everything but pair k is merged, and pair k is merged now. */
  lemma LastMerge(h: Heap, k: nat)
    requires forall j: nat :: CanMerge(h.blocks, j) ==> j == k
    ensures AllMerged(TryMerge(h, k).blocks)
  {
    if CanMerge(h.blocks, k) {
      forall j: nat ensures !CanMerge(TryMerge(h, k).blocks, j) { MergePairs(h, k, j); }
    }
  }

  lemma InsertedPairs(h: Heap, r: Region, j: nat)
    requires AllMerged(h.blocks)
    ensures var p := InsertPos(h.blocks, 0, r.start); j != p && j + 1 != p ==> !CanMerge(Insert(h, r).blocks, j)
  {
    var bs, p, after := h.blocks, InsertPos(h.blocks, 0, r.start), Insert(h, r).blocks;
    assert forall i :: 0 <= i < p ==> after[i] == bs[i];
    assert forall i :: p < i < |after| ==> after[i] == bs[i - 1];
    if j + 1 < p { assert !CanMerge(bs, j); } else if p < j < |after| { assert !CanMerge(bs, j - 1); }
  }

  lemma AddMerged(h: Heap, r: Region)
    requires AllMerged(h.blocks)
    ensures AllMerged(AddRegion(h, r).blocks)
  {
    hide CanMerge, Insert;
    var p, h1 := InsertPos(h.blocks, 0, r.start), Insert(h, r);
    forall j: nat | CanMerge(h1.blocks, j) ensures j == p || j + 1 == p { InsertedPairs(h, r, j); }
    if p > 0 && CanMerge(h1.blocks, p - 1) {
      var h2 := TryMerge(h1, p - 1);
      forall j: nat | CanMerge(h2.blocks, j) ensures j == p - 1 { MergePairs(h1, p - 1, j); }
      LastMerge(h2, p - 1);
    } else {
      LastMerge(h1, p);
    }
  }

  /** Freeing block k of a merged list leaves it merged unless the backward merge is needed and skipped. */
  lemma FreeMerged(h: Heap, k: nat)
    requires AllMerged(h.blocks) && k < |h.blocks| && h.blocks[k].used
    ensures AllMerged(FreeBlock(h, k).blocks) <==> !(TouchesPrev(h.blocks, k) && h.blocks[k].start in h.orphans)
  {
    hide CanMerge, MarkFree, TouchesPrev, TouchesNext;
    var m := MarkFree(h, k);
    forall j: nat | CanMerge(m.blocks, j) ensures j == k || j + 1 == k {
      MarkedPairs(h, k, j);
      OutOfRange(h.blocks, j);
    }
    MarkedPairs(h, k, k);
    var freed := TryMerge(m, k);
    forall j: nat | CanMerge(freed.blocks, j) ensures j + 1 == k {
      if CanMerge(m.blocks, k) { MergePairs(m, k, j); }
    }
    if k == 0 {
      NothingInFront(h.blocks);
    } else {
      if CanMerge(m.blocks, k) { MergePairs(m, k, k - 1); }
      OutOfRange(freed.blocks, k - 1);
      if h.blocks[k].start !in h.orphans { LastMerge(freed, k - 1); }
    }
  }

  lemma OutOfRange(bs: seq<Region>, j: nat)
    ensures CanMerge(bs, j) ==> j < |bs|
  {
  }

  lemma NothingInFront(bs: seq<Region>)
    ensures |bs| > 0 ==> !TouchesPrev(bs, 0)
  {
  }

  // ------------------------------------------------------------ steps and runs

  /** The free of a block whose back pointer names itself, behind a free block that it touches. */
  ghost predicate Skips(s: System, op: Op) {
    && op.FreePtr? && op.ptr > HEADER
    && var k := IndexOf(s.heap.blocks, 0, op.ptr - HEADER);
       k < |s.heap.blocks| && TouchesPrev(s.heap.blocks, k) && s.heap.blocks[k].start in s.heap.orphans
  }

  /** A call on a merged heap leaves it merged if and only if it is not such a free. */
  lemma StepMerged(s: System, op: Op)
    requires SystemInv(s) && ValidOp(s, op) && AllMerged(s.heap.blocks)
    ensures AllMerged(Step(s, op).heap.blocks) <==> !Skips(s, op)
  {
    hide AllMerged, TouchesPrev, FreeBlock, AddRegion, Plain, Aligned, Tiles, EndFits, Rounded;
    match op
    case Donate(base, bytes) =>
      if base != 0 && bytes > HEADER { AddMerged(s.heap, Region(base, bytes, false)); }
    case Allocate(size) => PlainMerged(s, size);
    case AllocateAligned(size, alignment) => AlignedMerged(s, size, alignment);
    case FreePtr(ptr) =>
      if ptr > HEADER {
        LiveIsFound(s.heap.blocks, s.live, ptr - HEADER);
        FreeMerged(s.heap, IndexOf(s.heap.blocks, 0, ptr - HEADER));
      }
  }

  ghost predicate MergedThroughout(s: System, ops: seq<Op>)
    decreases |ops|
  {
    AllMerged(s.heap.blocks) && (ops == [] || MergedThroughout(Step(s, ops[0]), ops[1..]))
  }

  ghost predicate NoneSkips(s: System, ops: seq<Op>)
    decreases |ops|
  {
    ops == [] || (!Skips(s, ops[0]) && NoneSkips(Step(s, ops[0]), ops[1..]))
  }

  /** A heap stays merged throughout a run if and only if no free of the run is such a one. */
  lemma {:induction false} RunMerged(s: System, ops: seq<Op>)
    requires SystemInv(s) && ValidRun(s, ops) && AllMerged(s.heap.blocks)
    ensures MergedThroughout(s, ops) <==> NoneSkips(s, ops)
    ensures NoneSkips(s, ops) ==> AllMerged(Run(s, ops).heap.blocks)
    decreases |ops|
  {
    hide SystemInv, ValidOp, Step, Skips, AllMerged;
    if ops != [] {
      StepMerged(s, ops[0]);
      StepKeeps(s, ops[0]);
      if !Skips(s, ops[0]) {
        RunMerged(Step(s, ops[0]), ops[1..]);
      } else {
        NotMerged(Step(s, ops[0]), ops[1..]);
      }
    }
  }

  lemma NotMerged(s: System, ops: seq<Op>)
    requires !AllMerged(s.heap.blocks)
    ensures !MergedThroughout(s, ops)
  {
  }

  /** Without requests of a larger alignment no back pointer names its own block, and nothing is skipped. */
  lemma {:induction false} PlainRunsStayMerged(s: System, ops: seq<Op>)
    requires SystemInv(s) && ValidRun(s, ops) && s.heap.orphans == {}
    requires forall op :: op in ops && op.AllocateAligned? ==> op.alignment <= MIN_ALIGNMENT
    ensures NoneSkips(s, ops)
    decreases |ops|
  {
    hide SystemInv, ValidOp, AlignedIn, Rounded, SplitBlock, Splice, FindAligned, FindBlock, IndexOf, CanMerge;
    if ops != [] {
      assert ops[0] in ops;
      StepKeeps(s, ops[0]);
      NoOrphansLeft(s, ops[0]);
      PlainRunsStayMerged(Step(s, ops[0]), ops[1..]);
    }
  }

  lemma NoOrphansLeft(s: System, op: Op)
    requires s.heap.orphans == {} && (op.AllocateAligned? ==> op.alignment <= MIN_ALIGNMENT)
    ensures Step(s, op).heap.orphans == {} && !Skips(s, op)
  {
    hide AlignedIn, Rounded, Splice, CanMerge;
  }

  /**
   Once nothing is held any more, a merged heap is back to the donated memory in one piece each:
   every block is free and ends on both sides where the donated memory does.
   */
  lemma AllMemoryReturns(s: System, b: Region)
    requires SystemInv(s) && AllMerged(s.heap.blocks) && s.live == map[] && b in s.heap.blocks
    ensures !b.used && !Covered(s.donated, b.End()) && !Covered(s.donated, b.start - 1)
    ensures forall x :: In(b, x) ==> Covered(s.donated, x)
  {
    var bs := s.heap.blocks;
    var k :| 0 <= k < |bs| && bs[k] == b;
    forall r | r in bs ensures !r.used { }
    forall i | 0 <= i < |bs| ensures !In(bs[i], b.End()) && !In(bs[i], b.start - 1) { NotBeside(bs, k, i); }
    assert !Covered(bs, b.End()) && !Covered(bs, b.start - 1);
    forall x | In(b, x) ensures Covered(s.donated, x) { assert In(bs[k], x); }
  }

  /** So does every run from boot in which no free is skipped, once its last block is given back. */
  lemma RunReturnsAllMemory(ops: seq<Op>, b: Region)
    requires ValidRun(EMPTY_SYSTEM, ops) && NoneSkips(EMPTY_SYSTEM, ops)
    requires Run(EMPTY_SYSTEM, ops).live == map[] && b in Run(EMPTY_SYSTEM, ops).heap.blocks
    ensures var donated := Run(EMPTY_SYSTEM, ops).donated;
            && !b.used && !Covered(donated, b.End()) && !Covered(donated, b.start - 1)
            && forall x :: In(b, x) ==> Covered(donated, x)
  {
    hide Run, NoneSkips, ValidRun, MergedThroughout;
    RunKeeps(EMPTY_SYSTEM, ops);
    RunMerged(EMPTY_SYSTEM, ops);
    AllMemoryReturns(Run(EMPTY_SYSTEM, ops), b);
  }

  lemma NotBeside(bs: seq<Region>, k: nat, i: nat)
    requires Ordered(bs) && AllMerged(bs) && (forall r :: r in bs ==> !r.used) && k < |bs| && i < |bs|
    ensures !In(bs[i], bs[k].End()) && !In(bs[i], bs[k].start - 1)
  {
    if k + 1 < |bs| { assert !CanMerge(bs, k) && bs[k] in bs && bs[k + 1] in bs; }
    if k > 0 { assert !CanMerge(bs, k - 1) && bs[k] in bs && bs[k - 1] in bs; }
  }

  // ------------------------------------------------------------------ witness

  /** The heap after each of the four calls behind the donation. */
  function Between(i: nat): System
    requires i < 5
  {
    var donated := [Region(4000, 1024, false)];
    if i == 0 then System(Heap([Region(4000, 1024, false)], {}), donated, map[])
    else if i == 1 then System(Heap([Region(4000, 64, true), Region(4064, 960, false)], {}), donated, map[4000 := 64])
    else if i == 2 then
      System(Heap([Region(4000, 64, true), Region(4064, 64, true), Region(4128, 896, false)], {4064}), donated,
             map[4000 := 64, 4064 := 64])
    else if i == 3 then
      System(Heap([Region(4000, 64, false), Region(4064, 64, true), Region(4128, 896, false)], {4064}), donated,
             map[4064 := 64])
    else System(Heap([Region(4000, 64, false), Region(4064, 960, false)], {4064}), donated, map[])
  }

  lemma DonateStep()
    ensures ValidOp(EMPTY_SYSTEM, Donate(4000, 1024)) && Step(EMPTY_SYSTEM, Donate(4000, 1024)) == Between(0)
  {
  }

  lemma AllocateStep()
    ensures ValidOp(Between(0), Allocate(32)) && Step(Between(0), Allocate(32)) == Between(1)
  {
    var bs := Between(0).heap.blocks;
    assert Rounded(32) == 32;
    assert FindBlock(bs, 0, 32) == 0;
    assert Splice(bs, 0, 1, SplitBlock(bs[0], 32)) == Between(1).heap.blocks;
  }

  lemma ExactlyAligned()
    ensures PowerOfTwo(64) && AlignUp(4096, 64) == 4096 && Rounded(32) == 32
  {
    assert PowerOfTwo(8) && PowerOfTwo(16) && PowerOfTwo(32);
    DividesIsMod(64, AlignUp(4096, 64));
    DividesIsMod(16, AlignUp(32, 16));
  }

  lemma AlignedStep()
    ensures ValidOp(Between(1), AllocateAligned(32, 64)) && Step(Between(1), AllocateAligned(32, 64)) == Between(2)
  {
    hide AlignUp, PowerOfTwo, Rounded;
    var bs := Between(1).heap.blocks;
    ExactlyAligned();
    assert AlignedIn(bs[1], 32, 64) == 4096 && AlignedIn64(bs[1], 32, 64) == 4096;
    assert FindAligned(bs, 0, 32, 64) == 1 && FindAligned64(bs, 0, 32, 64) == 1;
    assert Splice(bs, 1, 2, AlignedSplit(bs[1], 4096, 32)) == Between(2).heap.blocks;
  }

  lemma FrontFreed()
    ensures ValidOp(Between(2), FreePtr(4032)) && Step(Between(2), FreePtr(4032)) == Between(3)
  {
    var h := Between(2).heap;
    assert IndexOf(h.blocks, 0, 4000) == 0;
    assert MarkFree(h, 0).blocks == Between(3).heap.blocks;
  }

  lemma BackFreed()
    ensures ValidOp(Between(3), FreePtr(4096)) && Step(Between(3), FreePtr(4096)) == Between(4)
  {
    var h := Between(3).heap;
    assert IndexOf(h.blocks, 0, 4064) == 1;
    var m := MarkFree(h, 1);
    assert m.blocks == [Region(4000, 64, false), Region(4064, 64, false), Region(4128, 896, false)];
    assert TryMerge(m, 1).blocks == Between(4).heap.blocks;
  }

  /**
   A block allocated at an exactly aligned place, behind one that is freed first: both are free
   in the end, touch, and stay two blocks.
   */
  lemma UnmergedWitness()
    ensures var ops := [Donate(4000, 1024), Allocate(32), AllocateAligned(32, 64), FreePtr(4032), FreePtr(4096)];
            && ValidRun(EMPTY_SYSTEM, ops)
            && Run(EMPTY_SYSTEM, ops).heap.blocks == [Region(4000, 64, false), Region(4064, 960, false)]
            && !AllMerged(Run(EMPTY_SYSTEM, ops).heap.blocks)
  {
    hide Step, Run, ValidRun, ValidOp, Between, AllMerged;
    DonateStep();
    AllocateStep();
    AlignedStep();
    FrontFreed();
    BackFreed();
    var ops := [Donate(4000, 1024), Allocate(32), AllocateAligned(32, 64), FreePtr(4032), FreePtr(4096)];
    assert ops[1..][1..] == ops[2..] && ops[2..][1..] == ops[3..] && ops[3..][1..] == ops[4..] && ops[4..][1..] == [];
    EmptyRun(Between(4));
    Chained(Between(3), ops[4..], Between(4), []);
    Chained(Between(2), ops[3..], Between(3), ops[4..]);
    Chained(Between(1), ops[2..], Between(2), ops[3..]);
    Chained(Between(0), ops[1..], Between(1), ops[2..]);
    Chained(EMPTY_SYSTEM, ops, Between(0), ops[1..]);
    LastIsUnmerged();
  }

  lemma EmptyRun(s: System)
    ensures ValidRun(s, []) && Run(s, []) == s
  {
  }

  lemma Chained(s: System, ops: seq<Op>, t: System, rest: seq<Op>)
    requires ops != [] && ops[1..] == rest && ValidOp(s, ops[0]) && Step(s, ops[0]) == t && ValidRun(t, rest)
    ensures ValidRun(s, ops) && Run(s, ops) == Run(t, rest)
  {
    hide Step, ValidOp;
  }

  lemma LastIsUnmerged()
    ensures Between(4).heap.blocks == [Region(4000, 64, false), Region(4064, 960, false)]
    ensures !AllMerged(Between(4).heap.blocks)
  {
    assert CanMerge(Between(4).heap.blocks, 0);
  }
}
