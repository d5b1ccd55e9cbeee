/** When a heap request succeeds, and how much it takes, from sizes and addresses alone. */
module HeapSizes {
  import opened Machine
  import opened Alignment
  import opened Regions
  import opened HeapModel
  import opened HeapProofs

  /** The block of a pointer, used, and as large as the request with its header and at most 48 bytes more. */
  ghost predicate TakesFor(bs: seq<Region>, ptr: nat, n: nat) {
    ptr >= 32 && exists b :: b in bs && b.used && b.start == ptr - 32 && n + 32 <= b.size <= n + 32 + 48
  }

  // ---------------------------------------------------------------- allocate

  /** A request is rounded up to the next multiple of 16. */
  lemma RoundedIs(size: nat)
    requires size + 15 < U64
    ensures Rounded(size) % 16 == 0 && size <= Rounded(size) < size + 16
  {
    AlignUp16(size);
  }

  /** allocate succeeds exactly when a free block holds the rounded request and a header, and wastes little of it. */
  lemma PlainExactly(s: System, size: nat)
    ensures var (t, ptr) := Plain(s, size); var n := Rounded(size);
            && (ptr != 0 <==> size > 0 && exists b :: b in s.heap.blocks && !b.used && b.size >= n + 32)
            && (ptr != 0 ==> TakesFor(t.heap.blocks, ptr, n))
            && (ptr == 0 ==> t == s)
  {
    hide Rounded;
    var bs, n := s.heap.blocks, Rounded(size);
    var k := FindBlock(bs, 0, n);
    if k < |bs| {
      assert bs[k] in bs;
      var mid := SplitBlock(bs[k], n);
      SpliceMembers(bs, k, k + 1, mid);
      assert mid[0] in mid && mid[0] in Splice(bs, k, k + 1, mid);
    }
  }

  /** The first free block that is large enough is cut exactly when more than 48 bytes would be left over. */
  lemma PlainTakes(s: System, size: nat, k: nat)
    requires size > 0 && k < |s.heap.blocks|
    requires var n := Rounded(size);
             && !s.heap.blocks[k].used && s.heap.blocks[k].size >= n + 32
             && forall j :: 0 <= j < k ==> s.heap.blocks[j].used || s.heap.blocks[j].size < n + 32
    ensures var (t, ptr) := Plain(s, size); var b, n := s.heap.blocks[k], Rounded(size);
            && ptr == b.start + 32
            && t.heap.blocks == s.heap.blocks[..k]
                 + (if b.size - (n + 32) > 48
                    then [Region(b.start, n + 32, true), Region(b.start + n + 32, b.size - (n + 32), false)]
                    else [Region(b.start, b.size, true)])
                 + s.heap.blocks[k + 1..]
  {
    hide Rounded;
    assert FindBlock(s.heap.blocks, 0, Rounded(size)) == k;
  }

  // -------------------------------------------------------- aligned allocate

  /** A place for the data: at the very front, or behind a prefix worth a block of its own. */
  predicate GoodPlace(b: Region, alignment: nat, d: nat, n: nat)
    requires alignment > 0
  {
    Divides(alignment, d) && (d == b.start + 32 || d >= b.start + 80) && d + n <= b.start + b.size
  }

  /** The search finds the least good place, if there is one. */
  lemma {:induction false} LeastPlace(b: Region, n: nat, alignment: nat, data: nat, d: nat)
    requires alignment > 0 && Divides(alignment, data) && b.start + 32 <= data <= d && GoodPlace(b, alignment, d, n)
    ensures AlignedData(b, n, alignment, data) <= d
    decreases b.End() - data
  {
    if !StopsAt(b, n, data) {
      DividesSub(alignment, d, data);
      assert d - data >= alignment;
      DividesAdd(alignment, data, alignment);
      LeastPlace(b, n, alignment, data + alignment, d);
    }
  }

  lemma HoldsIsPlace(b: Region, n: nat, alignment: nat)
    requires alignment > 0
    ensures HoldsAligned(b, n, alignment) <==> !b.used && exists d :: GoodPlace(b, alignment, d, n)
    ensures HoldsAligned(b, n, alignment) ==> GoodPlace(b, alignment, AlignedIn(b, n, alignment), n)
  {
    hide AlignUp, AlignedData;
    var up, d := AlignUp(b.start + HEADER, alignment), AlignedIn(b, n, alignment);
    AlignedDataIsAligned(b, n, alignment, up);
    if HoldsAligned(b, n, alignment) { assert GoodPlace(b, alignment, d, n); }
    if !b.used && exists x :: GoodPlace(b, alignment, x, n) {
      var x :| GoodPlace(b, alignment, x, n);
      LeastAbove(b.start + HEADER, alignment, x);
      LeastPlace(b, n, alignment, up, x);
      assert d + n <= b.End();
    }
  }

  lemma LeastAbove(v: nat, alignment: nat, a: nat)
    requires alignment > 0 && Divides(alignment, a) && v <= a
    ensures AlignUp(v, alignment) <= a
  {
    hide AlignUp;
    if a < AlignUp(v, alignment) { DividesSub(alignment, AlignUp(v, alignment), a); }
  }

  /** allocate_zero_aligned succeeds exactly when some free block has a good place, and wastes little of it. */
  lemma AlignedExactly(s: System, size: nat, alignment: nat)
    requires alignment > 16 && PowerOfTwo(alignment)
    ensures var (t, ptr) := Aligned(s, size, alignment); var n := Rounded(size);
            && (ptr != 0 <==>
                  size > 0 && exists b, d :: b in s.heap.blocks && !b.used && GoodPlace(b, alignment, d, n))
            && (ptr != 0 ==> Divides(alignment, ptr) && TakesFor(t.heap.blocks, ptr, n))
            && (ptr == 0 ==> t == s)
  {
    hide Rounded, HoldsAligned, AlignedIn, GoodPlace;
    var bs, n := s.heap.blocks, Rounded(size);
    var k := FindAligned(bs, 0, n, alignment);
    forall j | 0 <= j < |bs|
      ensures HoldsAligned(bs[j], n, alignment) <==> !bs[j].used && exists d :: GoodPlace(bs[j], alignment, d, n)
    {
      HoldsIsPlace(bs[j], n, alignment);
    }
    if k < |bs| {
      HoldsIsPlace(bs[k], n, alignment);
      assert bs[k] in bs;
      if size > 0 { AlignedTakes(s, k, AlignedIn(bs[k], n, alignment), n, alignment); }
    }
  }

  /** The pieces of an aligned cut: a free prefix, the data with its header, and what is left over 48 bytes. */
  lemma AlignedPieces(h: Heap, k: nat, d: nat, n: nat)
    requires k < |h.blocks| && (d == h.blocks[k].start + 32 || d >= h.blocks[k].start + 80)
             && d + n <= h.blocks[k].End()
    ensures var b := h.blocks[k];
            var left := b.start + b.size - (d + n);
            TakeAligned(h, k, d, n).blocks == h.blocks[..k]
              + (if d == b.start + 32 then [] else [Region(b.start, d - 32 - b.start, false)])
              + (if left > 48 then [Region(d - 32, n + 32, true), Region(d + n, left, false)]
                 else [Region(d - 32, n + 32 + left, true)])
              + h.blocks[k + 1..]
  {
  }

  lemma AlignedTakes(s: System, k: nat, d: nat, n: nat, alignment: nat)
    requires k < |s.heap.blocks| && alignment > 0 && GoodPlace(s.heap.blocks[k], alignment, d, n)
    ensures Divides(alignment, d) && TakesFor(TakeAligned(s.heap, k, d, n).blocks, d, n)
  {
    var bs := s.heap.blocks;
    var mid := AlignedSplit(bs[k], d, n);
    SpliceMembers(bs, k, k + 1, mid);
    var u := if d == bs[k].start + 32 then 0 else 1;
    assert mid[u] in mid && mid[u] in Splice(bs, k, k + 1, mid);
  }

  // ----------------------------------------------------------------- expansion

  lemma PagesUp(x: nat)
    ensures AlignUp(x, 4096) == (x + 4095) / 4096 * 4096
  {
    hide AlignUp;
    DividesIsMod(4096, AlignUp(x, 4096));
  }

  /**
   A new subheap has twice the request with its header and the larger of alignment and page, and a
   page more, in whole pages and at least a megabyte; it is refused exactly from 2^32 pages on.
   */
  lemma GrowExactly(size: nat, alignment: nat)
    ensures var need := 2 * (size + 32 + Max(alignment, 4096)) + 4096;
            var pages := (need + 4095) / 4096;
            GrowBytes(size, alignment)
              == if size == 0 || pages > 0xFFFF_FFFF then 0 else Max(pages * 4096, 0x10_0000)
  {
    hide AlignUp;
    PagesUp(2 * (size + 32 + Max(alignment, 4096)) + 4096);
  }
}
