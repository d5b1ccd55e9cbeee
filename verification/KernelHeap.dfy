/**
 The kernel heap object: headers in memory, linked both ways, updated in place as
 src/core/memory.cpp does. Memory is the map from header addresses to headers; headers of
 merged blocks stay behind in it, as they do in the kernel.
 */
module KernelHeap {
  import opened Machine
  import opened Alignment
  import opened Regions
  import opened HeapModel
  import opened HeapProofs

  /** struct heap_block; address 0 is the null pointer. */
  datatype Header = Header(size: nat, used: bool, next: nat, prev: nat)

  ghost function HeaderOf(h: Heap, i: nat): Header
    requires i < |h.blocks| && h.blocks[i].size >= HEADER
  {
    var b := h.blocks[i];
    Header(b.size - HEADER, b.used, StartAt(h.blocks, i + 1),
           if b.start in h.orphans then b.start else if i > 0 then h.blocks[i - 1].start else 0)
  }

  ghost predicate HeaderAt(mem: map<nat, Header>, h: Heap, i: nat)
    requires i < |h.blocks|
  {
    h.blocks[i].size >= HEADER && h.blocks[i].start in mem && mem[h.blocks[i].start] == HeaderOf(h, i)
  }

  /** The headers reachable from head are the block list, with its back pointers. */
  ghost predicate Linked(mem: map<nat, Header>, head: nat, h: Heap) {
    && head == StartAt(h.blocks, 0)
    && (forall i :: 0 <= i < |h.blocks| ==> HeaderAt(mem, h, i))
  }

  /** Same header and same back-pointer flag before and after. */
  ghost predicate Untouched(mem: map<nat, Header>, mem': map<nat, Header>, orphans: set<nat>, orphans': set<nat>,
                            a: nat) {
    (a in mem ==> a in mem' && mem'[a] == mem[a]) && (a in orphans <==> a in orphans')
  }

  /** Rewriting the headers of a splice and the back pointer after it relinks the list. */
  lemma SpliceLinked(mem: map<nat, Header>, mem': map<nat, Header>, head: nat, head': nat, h: Heap, h': Heap,
                     lo: nat, hi: nat, mid: seq<Region>)
    requires Linked(mem, head, h) && lo <= hi <= |h.blocks| && h'.blocks == Splice(h.blocks, lo, hi, mid)
    requires head' == StartAt(h'.blocks, 0)
    requires lo > 0 ==> StartAt(h'.blocks, lo) == StartAt(h.blocks, lo)
    requires forall i :: 0 <= i < lo || hi < i < |h.blocks| ==>
               Untouched(mem, mem', h.orphans, h'.orphans, h.blocks[i].start)
    requires forall m :: lo <= m < lo + |mid| ==> HeaderAt(mem', h', m)
    requires hi < |h.blocks| ==> HeaderAt(mem', h', lo + |mid|)
    ensures Linked(mem', head', h')
  {
    forall i | 0 <= i < |h'.blocks| ensures HeaderAt(mem', h', i) {
      if i < lo {
        assert HeaderAt(mem, h, i);
        assert StartAt(h'.blocks, i + 1) == StartAt(h.blocks, i + 1);
      } else if i > lo + |mid| {
        var j := i - |mid| - lo + hi;
        assert HeaderAt(mem, h, j);
        assert h'.blocks[i] == h.blocks[j] && h'.blocks[i - 1] == h.blocks[j - 1];
        assert StartAt(h'.blocks, i + 1) == StartAt(h.blocks, j + 1);
      }
    }
  }

  /** a is the header address of none of the blocks lo .. lo + n. */
  ghost predicate Elsewhere(bs: seq<Region>, lo: nat, n: nat, a: nat) {
    forall m :: lo <= m <= lo + n && m < |bs| ==> bs[m].start != a
  }

  /** Writes at the headers of a splice and of the block after it leave the others alone. */
  lemma OthersUntouched(mem: map<nat, Header>, mem': map<nat, Header>, h: Heap, h': Heap, lo: nat, hi: nat,
                        mid: seq<Region>)
    requires lo <= hi <= |h.blocks| && h'.blocks == Splice(h.blocks, lo, hi, mid) && Ordered(h'.blocks)
    requires forall a :: Elsewhere(h'.blocks, lo, |mid|, a) && a > 0 ==> Untouched(mem, mem', h.orphans, h'.orphans, a)
    requires forall b :: b in h.blocks ==> b.start > 0
    ensures forall i :: 0 <= i < lo || hi < i < |h.blocks| ==>
              Untouched(mem, mem', h.orphans, h'.orphans, h.blocks[i].start)
  {
    hide Untouched;
    forall i | 0 <= i < lo || hi < i < |h.blocks|
      ensures Untouched(mem, mem', h.orphans, h'.orphans, h.blocks[i].start)
    {
      var j := if i < lo then i else i - hi + lo + |mid|;
      assert h'.blocks[j] == h.blocks[i] && h.blocks[i] in h.blocks;
      assert Elsewhere(h'.blocks, lo, |mid|, h'.blocks[j].start);
    }
  }

  /** The header writes of a plain allocation. */
  function TakeWrites(mem: map<nat, Header>, block: nat, size: nat): map<nat, Header>
    requires block in mem && (mem[block].next != 0 ==> mem[block].next in mem)
  {
    var b := mem[block];
    var marked := mem[block := b.(used := true)];
    if b.size > size + HEADER + MIN_SPLIT then
      var rest := block + HEADER + size;
      var split := marked[rest := Header(b.size - size - HEADER, false, b.next, block)];
      var back := if b.next != 0 then split[b.next := split[b.next].(prev := rest)] else split;
      back[block := back[block].(next := rest, size := size)]
    else marked
  }

  /** A block and its successor have headers, so its next pointer is null or a header. */
  lemma NextInMemory(mem: map<nat, Header>, head: nat, h: Heap, k: nat)
    requires Linked(mem, head, h) && k < |h.blocks|
    ensures head == StartAt(h.blocks, 0) && HeaderAt(mem, h, k) && h.blocks[k].start in mem
    ensures mem[h.blocks[k].start].next == StartAt(h.blocks, k + 1)
    ensures k + 1 < |h.blocks| ==> HeaderAt(mem, h, k + 1)
    ensures StartAt(h.blocks, k + 1) != 0 ==> StartAt(h.blocks, k + 1) in mem
  {
    assert HeaderAt(mem, h, k) && (k + 1 < |h.blocks| ==> HeaderAt(mem, h, k + 1));
  }

  /** The headers around a split of block k. */
  lemma SplitHeaders(mem: map<nat, Header>, h: Heap, h': Heap, k: nat, size: nat, rest: nat)
    requires k < |h.blocks| && HeaderAt(mem, h, k) && (k + 1 < |h.blocks| ==> HeaderAt(mem, h, k + 1))
    requires Holds(h.blocks[k], size) && h.blocks[k].size - HEADER > size + HEADER + MIN_SPLIT
    requires h' == TakeBlock(h, k, size) && rest == h.blocks[k].start + HEADER + size
    requires h.blocks[k].start > 0 && (k + 1 < |h.blocks| ==> h.blocks[k + 1].start > rest)
    ensures var mem' := TakeWrites(mem, h.blocks[k].start, size);
            && k + 1 < |h'.blocks| && HeaderAt(mem', h', k) && HeaderAt(mem', h', k + 1)
            && (k + 1 < |h.blocks| ==> k + 2 < |h'.blocks| && HeaderAt(mem', h', k + 2))
  {
    var bs, mid := h.blocks, SplitBlock(h.blocks[k], size);
    assert |mid| == 2 && h'.blocks == bs[..k] + mid + bs[k + 1..];
    assert h'.blocks[k] == mid[0] && h'.blocks[k + 1] == mid[1];
    assert k > 0 ==> h'.blocks[k - 1] == bs[k - 1];
    assert k + 1 < |bs| ==> h'.blocks[k + 2] == bs[k + 1];
    assert k + 2 < |bs| ==> h'.blocks[k + 3] == bs[k + 2];
  }

  lemma TakeLinked(mem: map<nat, Header>, head: nat, h: Heap, k: nat, size: nat)
    requires Linked(mem, head, h) && k < |h.blocks| && Holds(h.blocks[k], size) && Ordered(h.blocks)
    requires Ordered(TakeBlock(h, k, size).blocks) && forall b :: b in h.blocks ==> b.start > 0
    ensures HeaderAt(mem, h, k) && (mem[h.blocks[k].start].next != 0 ==> mem[h.blocks[k].start].next in mem)
    ensures Linked(TakeWrites(mem, h.blocks[k].start, size), head, TakeBlock(h, k, size))
  {
    hide TakeBlock, TakeWrites, Ordered, SplitBlock, Linked, HeaderAt, Untouched, Splice, StartAt;
    NextInMemory(mem, head, h, k);
    var bs, mid := h.blocks, SplitBlock(h.blocks[k], size);
    TakeShape(h, k, size);
    TakeHeaders(mem, h, k, size);
    TakeUntouched(mem, h, k, size, mid);
    SpliceLinked(mem, TakeWrites(mem, bs[k].start, size), head, head, h, TakeBlock(h, k, size), k, k + 1, mid);
  }

  lemma TakeShape(h: Heap, k: nat, size: nat)
    requires k < |h.blocks| && Holds(h.blocks[k], size)
    ensures var bs, bs', mid := h.blocks, TakeBlock(h, k, size).blocks, SplitBlock(h.blocks[k], size);
            && bs' == Splice(bs, k, k + 1, mid) && 1 <= |mid| <= 2 && |bs'| == |bs| + |mid| - 1
            && StartAt(bs', 0) == StartAt(bs, 0) && StartAt(bs', k) == StartAt(bs, k)
  {
  }

  lemma TakeDefined(mem: map<nat, Header>, h: Heap, k: nat)
    requires k < |h.blocks| && HeaderAt(mem, h, k) && (k + 1 < |h.blocks| ==> HeaderAt(mem, h, k + 1))
    ensures var block := h.blocks[k].start; block in mem && (mem[block].next != 0 ==> mem[block].next in mem)
  {
  }

  lemma TakeHeaders(mem: map<nat, Header>, h: Heap, k: nat, size: nat)
    requires k < |h.blocks| && HeaderAt(mem, h, k) && (k + 1 < |h.blocks| ==> HeaderAt(mem, h, k + 1))
    requires Holds(h.blocks[k], size) && Ordered(h.blocks) && forall b :: b in h.blocks ==> b.start > 0
    ensures var mem', h', mid := TakeWrites(mem, h.blocks[k].start, size), TakeBlock(h, k, size),
            SplitBlock(h.blocks[k], size);
            && |h'.blocks| == |h.blocks| + |mid| - 1
            && (forall m :: k <= m < k + |mid| ==> HeaderAt(mem', h', m))
            && (k + 1 < |h.blocks| ==> HeaderAt(mem', h', k + |mid|))
  {
    hide HeaderAt, TakeBlock, TakeWrites;
    var bs, mid := h.blocks, SplitBlock(h.blocks[k], size);
    TakeShape(h, k, size);
    TakeDefined(mem, h, k);
    assert bs[k] in bs && (k + 1 < |bs| ==> bs[k].End() <= bs[k + 1].start);
    if |mid| == 2 {
      SplitHeaders(mem, h, TakeBlock(h, k, size), k, size, mid[1].start);
    } else {
      WholeHeaders(mem, h, k, size);
    }
  }

  /** The headers around block k when it is taken whole. */
  lemma WholeHeaders(mem: map<nat, Header>, h: Heap, k: nat, size: nat)
    requires k < |h.blocks| && HeaderAt(mem, h, k) && (k + 1 < |h.blocks| ==> HeaderAt(mem, h, k + 1))
    requires Holds(h.blocks[k], size) && |SplitBlock(h.blocks[k], size)| == 1 && Ordered(h.blocks)
    ensures var mem', h' := TakeWrites(mem, h.blocks[k].start, size), TakeBlock(h, k, size);
            |h'.blocks| == |h.blocks| && HeaderAt(mem', h', k) && (k + 1 < |h.blocks| ==> HeaderAt(mem', h', k + 1))
  {
    var bs, bs' := h.blocks, TakeBlock(h, k, size).blocks;
    assert forall i :: 0 <= i < |bs| && i != k ==> bs'[i] == bs[i];
    assert bs'[k] == bs[k].(used := true);
  }

  lemma TakeUntouched(mem: map<nat, Header>, h: Heap, k: nat, size: nat, mid: seq<Region>)
    requires k < |h.blocks| && Holds(h.blocks[k], size) && mid == SplitBlock(h.blocks[k], size)
    requires HeaderAt(mem, h, k) && (k + 1 < |h.blocks| ==> HeaderAt(mem, h, k + 1))
    requires Ordered(TakeBlock(h, k, size).blocks) && forall b :: b in h.blocks ==> b.start > 0
    ensures var h', mem' := TakeBlock(h, k, size), TakeWrites(mem, h.blocks[k].start, size);
            forall i :: 0 <= i < k || k + 1 < i < |h.blocks| ==>
              Untouched(mem, mem', h.orphans, h'.orphans, h.blocks[i].start)
  {
    var bs, h' := h.blocks, TakeBlock(h, k, size);
    assert h'.blocks[k] == mid[0] && (|mid| > 1 ==> h'.blocks[k + 1] == mid[1]);
    assert k + 1 < |bs| ==> h'.blocks[k + |mid|] == bs[k + 1];
    OthersUntouched(mem, TakeWrites(mem, bs[k].start, size), h, h', k, k + 1, mid);
  }

  /** All a plain allocation needs: the next state is sound and its headers are linked. */
  lemma PlainLinked(mem: map<nat, Header>, head: nat, s: System, size: nat, k: nat)
    requires SystemInv(s) && Linked(mem, head, s.heap) && size > 0
    requires k == FindBlock(s.heap.blocks, 0, Rounded(size)) && k < |s.heap.blocks|
    ensures var block := s.heap.blocks[k].start;
            && block in mem && (mem[block].next != 0 ==> mem[block].next in mem)
            && Plain(s, size).1 == block + HEADER && Plain(s, size).0.donated == s.donated
            && SystemInv(Plain(s, size).0)
            && Linked(TakeWrites(mem, block, Rounded(size)), head, Plain(s, size).0.heap)
  {
    PlainKeeps(s, size);
    TakeLinked(mem, head, s.heap, k, Rounded(size));
  }

  // ------------------------------------------------------- merging and freeing

  /** Swallow the block that follows. */
  function MergeWrites(mem: map<nat, Header>, block: nat): map<nat, Header>
    requires block in mem && mem[block].next in mem
    requires mem[mem[block].next].next != 0 ==> mem[mem[block].next].next in mem
  {
    var b := mem[block];
    var n := mem[b.next];
    var grown := mem[block := b.(size := b.size + n.size + HEADER, next := n.next)];
    if n.next != 0 then grown[n.next := grown[n.next].(prev := block)] else grown
  }

  lemma MergeLinked(mem: map<nat, Header>, head: nat, h: Heap, k: nat)
    requires Linked(mem, head, h) && CanMerge(h.blocks, k) && Ordered(TryMerge(h, k).blocks)
    requires forall b :: b in h.blocks ==> b.start > 0
    ensures var block := h.blocks[k].start;
            && block in mem && mem[block].next in mem
            && (mem[mem[block].next].next != 0 ==> mem[mem[block].next].next in mem)
            && Linked(MergeWrites(mem, block), head, TryMerge(h, k))
  {
    hide TryMerge, MergeWrites, Ordered, Linked, HeaderAt, Untouched, Splice, StartAt;
    NextInMemory(mem, head, h, k);
    NextInMemory(mem, head, h, k + 1);
    assert h.blocks[k + 1] in h.blocks;
    MergeShape(h, k);
    MergeHeaders(mem, h, k);
    MergeUntouched(mem, h, k);
    SpliceLinked(mem, MergeWrites(mem, h.blocks[k].start), head, head, h, TryMerge(h, k), k, k + 2,
                 [Merged(h.blocks, k)]);
  }

  lemma MergeShape(h: Heap, k: nat)
    requires CanMerge(h.blocks, k)
    ensures var bs, bs' := h.blocks, TryMerge(h, k).blocks;
            && bs' == Splice(bs, k, k + 2, [Merged(bs, k)]) && |bs'| == |bs| - 1
            && StartAt(bs', 0) == StartAt(bs, 0) && StartAt(bs', k) == StartAt(bs, k)
            && StartAt(bs, k + 1) == bs[k + 1].start
  {
  }

  lemma MergeHeaders(mem: map<nat, Header>, h: Heap, k: nat)
    requires CanMerge(h.blocks, k) && HeaderAt(mem, h, k) && HeaderAt(mem, h, k + 1)
    requires k + 2 < |h.blocks| ==> HeaderAt(mem, h, k + 2)
    requires Ordered(TryMerge(h, k).blocks) && forall b :: b in h.blocks ==> b.start > 0
    ensures var h', mem' := TryMerge(h, k), MergeWrites(mem, h.blocks[k].start);
            && |h'.blocks| == |h.blocks| - 1 && HeaderAt(mem', h', k)
            && (k + 2 < |h.blocks| ==> HeaderAt(mem', h', k + 1))
  {
    var bs, h' := h.blocks, TryMerge(h, k);
    assert h'.blocks[k] == Merged(bs, k) && (k > 0 ==> h'.blocks[k - 1] == bs[k - 1]);
    assert k + 2 < |bs| ==> h'.blocks[k + 1] == bs[k + 2] && h'.blocks[k + 1].start != h'.blocks[k].start;
    assert k + 3 < |bs| ==> h'.blocks[k + 2] == bs[k + 3];
  }

  lemma MergeUntouched(mem: map<nat, Header>, h: Heap, k: nat)
    requires CanMerge(h.blocks, k) && HeaderAt(mem, h, k) && HeaderAt(mem, h, k + 1)
    requires k + 2 < |h.blocks| ==> HeaderAt(mem, h, k + 2)
    requires Ordered(TryMerge(h, k).blocks) && forall b :: b in h.blocks ==> b.start > 0
    ensures var h', mem' := TryMerge(h, k), MergeWrites(mem, h.blocks[k].start);
            forall i :: 0 <= i < k || k + 2 < i < |h.blocks| ==>
              Untouched(mem, mem', h.orphans, h'.orphans, h.blocks[i].start)
  {
    var bs, h' := h.blocks, TryMerge(h, k);
    assert h'.blocks[k] == Merged(bs, k) && (k + 2 < |bs| ==> h'.blocks[k + 1] == bs[k + 2]);
    OthersUntouched(mem, MergeWrites(mem, bs[k].start), h, h', k, k + 2, [Merged(bs, k)]);
  }

  lemma MarkLinked(mem: map<nat, Header>, head: nat, s: System, h: Heap, k: nat)
    requires h == s.heap && Linked(mem, head, h) && k < |h.blocks| && Ordered(h.blocks)
    ensures var block := h.blocks[k].start;
            block in mem && Linked(mem[block := mem[block].(used := false)], head, Marked(s, k))
  {
    var bs, block, h' := h.blocks, h.blocks[k].start, Marked(s, k);
    assert HeaderAt(mem, h, k);
    var mem' := mem[block := mem[block].(used := false)];
    assert h'.blocks == bs[k := bs[k].(used := false)] && h'.orphans == h.orphans;
    forall i | 0 <= i < |h'.blocks| ensures HeaderAt(mem', h', i) {
      hide Marked, Ordered;
      assert HeaderAt(mem, h, i);
      if i != k { DistinctStarts(bs, i, k); }
      MarkHeader(mem, mem', h, h', k, i);
    }
  }

  lemma DistinctStarts(bs: seq<Region>, i: nat, k: nat)
    requires Ordered(bs) && i < |bs| && k < |bs| && i != k
    ensures bs[i].start != bs[k].start
  {
  }

  lemma MarkHeader(mem: map<nat, Header>, mem': map<nat, Header>, h: Heap, h': Heap, k: nat, i: nat)
    requires k < |h.blocks| && i < |h.blocks| && HeaderAt(mem, h, i)
    requires h'.blocks == h.blocks[k := h.blocks[k].(used := false)] && h'.orphans == h.orphans
    requires h.blocks[k].start in mem && mem' == mem[h.blocks[k].start := mem[h.blocks[k].start].(used := false)]
    requires i != k ==> h.blocks[i].start != h.blocks[k].start
    ensures HeaderAt(mem', h', i)
  {
  }

  /** What the coalescing tests of kernel_heap::free and add_region see through pointers. */
  lemma NextTest(mem: map<nat, Header>, head: nat, h: Heap, k: nat)
    requires Linked(mem, head, h) && k < |h.blocks| && !h.blocks[k].used && forall b :: b in h.blocks ==> b.start > 0
    ensures HeaderAt(mem, h, k)
    ensures var b := mem[h.blocks[k].start];
            && (b.next != 0 ==> b.next in mem)
            && (CanMerge(h.blocks, k) <==>
                  b.next != 0 && !mem[b.next].used && h.blocks[k].start + HEADER + b.size == b.next)
  {
    NextInMemory(mem, head, h, k);
    if k + 1 < |h.blocks| { assert h.blocks[k + 1] in h.blocks; }
  }

  /** A self back pointer never passes the test, so it only loses the backward merge. */
  lemma PrevTest(mem: map<nat, Header>, head: nat, h: Heap, k: nat)
    requires Linked(mem, head, h) && k < |h.blocks| && !h.blocks[k].used && forall b :: b in h.blocks ==> b.start > 0
    ensures HeaderAt(mem, h, k)
    ensures var a := h.blocks[k].start; var b := mem[a];
            && (b.prev != 0 ==> b.prev in mem)
            && (b.prev != 0 && !mem[b.prev].used && b.prev + HEADER + mem[b.prev].size == a
                <==> k > 0 && a !in h.orphans && CanMerge(h.blocks, k - 1))
            && (k > 0 && a !in h.orphans ==> b.prev == h.blocks[k - 1].start)
  {
    assert HeaderAt(mem, h, k);
    if k > 0 { assert HeaderAt(mem, h, k - 1) && h.blocks[k - 1] in h.blocks; }
  }

  // ---------------------------------------------------------------- inserting

  /** Link r in before the first block; `head` is the old head. */
  function PushWrites(mem: map<nat, Header>, head: nat, r: Region): map<nat, Header>
    requires r.size >= HEADER && (head != 0 ==> head in mem)
  {
    var linked := mem[r.start := Header(r.size - HEADER, false, head, 0)];
    if head != 0 then linked[head := linked[head].(prev := r.start)] else linked
  }

  /** Link r in after the block at `current`. */
  function InsertWrites(mem: map<nat, Header>, current: nat, r: Region): map<nat, Header>
    requires r.size >= HEADER && current in mem && (mem[current].next != 0 ==> mem[current].next in mem)
  {
    var next := mem[current].next;
    var fresh1 := mem[r.start := Header(r.size - HEADER, false, next, current)];
    var linked := fresh1[current := fresh1[current].(next := r.start)];
    if next != 0 then linked[next := linked[next].(prev := r.start)] else linked
  }

  lemma PushLinked(mem: map<nat, Header>, head: nat, h: Heap, r: Region)
    requires Linked(mem, head, h) && InsertPos(h.blocks, 0, r.start) == 0 && Solid(r) && !r.used
    requires Ordered(Insert(h, r).blocks) && forall b :: b in h.blocks ==> b.start > 0
    ensures head != 0 ==> head in mem
    ensures Linked(PushWrites(mem, head, r), r.start, Insert(h, r))
  {
    var bs, h' := h.blocks, Insert(h, r);
    if |bs| > 0 { assert HeaderAt(mem, h, 0) && bs[0] in bs; }
    if |bs| > 1 { assert HeaderAt(mem, h, 1); }
    var mem' := PushWrites(mem, head, r);
    assert h'.blocks == Splice(bs, 0, 0, [r]);
    assert h'.blocks[0] == r && (|bs| > 0 ==> h'.blocks[1] == bs[0]) && (|bs| > 1 ==> h'.blocks[2] == bs[1]);
    assert HeaderAt(mem', h', 0) && (|bs| > 0 ==> HeaderAt(mem', h', 1));
    OthersUntouched(mem, mem', h, h', 0, 0, [r]);
    hide Insert, PushWrites, Ordered, Linked, HeaderAt, Untouched;
    SpliceLinked(mem, mem', head, r.start, h, h', 0, 0, [r]);
  }

  lemma InsertHeaders(mem: map<nat, Header>, h: Heap, h': Heap, p: nat, r: Region)
    requires 0 < p <= |h.blocks| && p == InsertPos(h.blocks, 0, r.start) && Solid(r) && !r.used && h' == Insert(h, r)
    requires HeaderAt(mem, h, p - 1) && (p < |h.blocks| ==> HeaderAt(mem, h, p) && h.blocks[p].start > 0)
    requires Ordered(h'.blocks)
    ensures var mem' := InsertWrites(mem, h.blocks[p - 1].start, r);
            && |h'.blocks| == |h.blocks| + 1 && HeaderAt(mem', h', p - 1) && HeaderAt(mem', h', p)
            && (p < |h.blocks| ==> HeaderAt(mem', h', p + 1))
  {
    var bs := h.blocks;
    assert h'.blocks == bs[..p] + [r] + bs[p..];
    assert h'.blocks[p - 1] == bs[p - 1] && h'.blocks[p] == r && (p > 1 ==> h'.blocks[p - 2] == bs[p - 2]);
    assert p < |bs| ==> h'.blocks[p + 1] == bs[p];
    assert p + 1 < |bs| ==> h'.blocks[p + 2] == bs[p + 1];
    assert h'.blocks[p - 1].start != h'.blocks[p].start;
    assert p < |bs| ==>
             h'.blocks[p + 1].start != h'.blocks[p].start && h'.blocks[p + 1].start != h'.blocks[p - 1].start;
  }

  lemma InsertLinked(mem: map<nat, Header>, head: nat, h: Heap, r: Region, p: nat)
    requires Linked(mem, head, h) && p == InsertPos(h.blocks, 0, r.start) && p > 0 && Solid(r) && !r.used
    requires Ordered(Insert(h, r).blocks) && forall b :: b in h.blocks ==> b.start > 0
    ensures var current := h.blocks[p - 1].start;
            && current in mem && (mem[current].next != 0 ==> mem[current].next in mem)
            && Linked(InsertWrites(mem, current, r), head, Insert(h, r))
  {
    hide Insert, InsertWrites, Ordered, Linked, HeaderAt, Untouched, Splice, StartAt;
    var bs, h', current := h.blocks, Insert(h, r), h.blocks[p - 1].start;
    NextInMemory(mem, head, h, p - 1);
    if p < |bs| { assert bs[p] in bs; }
    InsertHeaders(mem, h, h', p, r);
    InsertShape(h, r, p);
    InsertUntouched(mem, h, h', p, r);
    SpliceLinked(mem, InsertWrites(mem, current, r), head, head, h, h', p - 1, p, [bs[p - 1], r]);
  }

  /** An insertion is a splice behind its predecessor. */
  lemma InsertShape(h: Heap, r: Region, p: nat)
    requires 0 < p <= |h.blocks| && p == InsertPos(h.blocks, 0, r.start)
    ensures var bs, bs' := h.blocks, Insert(h, r).blocks;
            && bs' == Splice(bs, p - 1, p, [bs[p - 1], r])
            && StartAt(bs', 0) == StartAt(bs, 0) && StartAt(bs', p - 1) == StartAt(bs, p - 1)
  {
  }

  lemma InsertUntouched(mem: map<nat, Header>, h: Heap, h': Heap, p: nat, r: Region)
    requires 0 < p <= |h.blocks| && p == InsertPos(h.blocks, 0, r.start) && Solid(r) && !r.used && h' == Insert(h, r)
    requires HeaderAt(mem, h, p - 1) && (p < |h.blocks| ==> HeaderAt(mem, h, p))
    requires Ordered(h'.blocks) && forall b :: b in h.blocks ==> b.start > 0
    ensures var mem' := InsertWrites(mem, h.blocks[p - 1].start, r);
            forall i :: 0 <= i < p - 1 || p < i < |h.blocks| ==>
              Untouched(mem, mem', h.orphans, h'.orphans, h.blocks[i].start)
  {
    var bs, mid := h.blocks, [h.blocks[p - 1], r];
    assert h'.blocks == Splice(bs, p - 1, p, mid);
    assert h'.blocks[p - 1] == bs[p - 1] && h'.blocks[p] == r && (p < |bs| ==> h'.blocks[p + 1] == bs[p]);
    var lo, mem' := p - 1, InsertWrites(mem, bs[p - 1].start, r);
    forall a | Elsewhere(h'.blocks, lo, |mid|, a) && a > 0 ensures Untouched(mem, mem', h.orphans, h'.orphans, a) {
      hide Ordered;
      assert h'.blocks[p - 1].start != a && h'.blocks[p].start != a && (p < |bs| ==> h'.blocks[p + 1].start != a);
    }
    hide HeaderAt, Insert, InsertWrites;
    OthersUntouched(mem, mem', h, h', lo, p, mid);
  }

  /** Block k is the free block at this address, and no block is at address 0. */
  ghost predicate Ready(h: Heap, k: nat, block: nat) {
    && k < |h.blocks| && h.blocks[k].start == block && !h.blocks[k].used
    && (forall b :: b in h.blocks ==> b.start > 0)
  }

  lemma MarkedReady(h: Heap, k: nat, block: nat)
    requires k < |h.blocks| && h.blocks[k].start == block && forall b :: b in h.blocks ==> b.start > 0
    ensures Ready(MarkFree(h, k), k, block)
  {
    var one := h.blocks[k].(used := false);
    assert h.blocks[k] in h.blocks;
    SpliceMembers(h.blocks, k, k + 1, [one]);
    assert MarkFree(h, k).blocks[k] == one;
  }

  lemma MergedReady(h: Heap, k: nat, block: nat)
    requires Ready(h, k, block) && Ordered(h.blocks)
    ensures Ready(TryMerge(h, k), k, block) && (block in TryMerge(h, k).orphans <==> block in h.orphans)
  {
    if CanMerge(h.blocks, k) {
      var one := Merged(h.blocks, k);
      assert h.blocks[k] in h.blocks;
      SpliceMembers(h.blocks, k, k + 2, [one]);
      assert TryMerge(h, k).blocks[k] == one;
      assert k + 2 < |h.blocks| ==> h.blocks[k].start != h.blocks[k + 2].start;
    }
  }

  /** The two stages of a free before the backward merge. */
  ghost function Marked(s: System, k: nat): Heap
    requires k < |s.heap.blocks|
  {
    MarkFree(s.heap, k)
  }

  ghost function Coalesced(s: System, k: nat, block: nat): Heap
    requires k < |s.heap.blocks|
  {
    var merged := TryMerge(Marked(s, k), k);
    if k > 0 && block !in merged.orphans && CanMerge(merged.blocks, k - 1) then TryMerge(merged, k - 1) else merged
  }

  lemma NullFree(s: System)
    ensures Step(s, FreePtr(0)) == s
  {
  }

  lemma FreeOrdered(s: System, block: nat, k: nat)
    requires SystemInv(s) && block in s.live && k == IndexOf(s.heap.blocks, 0, block)
    ensures k < |s.heap.blocks| && s.heap.blocks[k].used && Ordered(s.heap.blocks)
    ensures forall b :: b in s.heap.blocks ==> b.start > 0
    ensures Ordered(Marked(s, k).blocks) && Ordered(TryMerge(Marked(s, k), k).blocks)
    ensures k > 0 ==> Ordered(TryMerge(TryMerge(Marked(s, k), k), k - 1).blocks)
  {
    hide Tiles, LiveMatches, TryMerge, MarkFree, Ordered;
    var after := s.live - {block};
    LiveIsFound(s.heap.blocks, s.live, block);
    MarkFreeKeeps(s.heap, k, s.donated, s.live);
    TryMergeKeeps(Marked(s, k), k, s.donated, after);
    if k > 0 { TryMergeKeeps(TryMerge(Marked(s, k), k), k - 1, s.donated, after); }
    forall b | b in s.heap.blocks ensures b.start > 0 { assert Solid(b); }
  }

  /** All a free needs: its stages are in order and the last one is the next state. */
  lemma FreeStages(s: System, block: nat, k: nat)
    requires SystemInv(s) && block in s.live && block > 0 && k == IndexOf(s.heap.blocks, 0, block)
    ensures k < |s.heap.blocks| && s.heap.blocks[k].start == block && Ordered(s.heap.blocks)
    ensures var marked := Marked(s, k); var merged := TryMerge(marked, k);
            && Ready(marked, k, block) && Ordered(merged.blocks) && Ready(merged, k, block)
            && (k > 0 ==> Ordered(TryMerge(merged, k - 1).blocks))
            && Step(s, FreePtr(block + HEADER)) == s.(heap := Coalesced(s, k, block), live := s.live - {block})
    ensures SystemInv(Step(s, FreePtr(block + HEADER)))
  {
    hide SystemInv, Ordered, MarkFree, Ready, TryMerge, CanMerge, FreeBlock, Coalesced, Marked;
    FreeOrdered(s, block, k);
    FreePtrKeeps(s, block + HEADER);
    MarkedReady(s.heap, k, block);
    MarkedIs(s, k);
    MergedReady(Marked(s, k), k, block);
    CoalescedIsFree(s, block, k);
  }

  lemma MarkedIs(s: System, k: nat)
    requires k < |s.heap.blocks|
    ensures Marked(s, k) == MarkFree(s.heap, k)
  {
  }

  lemma CoalescedIsFree(s: System, block: nat, k: nat)
    requires k < |s.heap.blocks| && s.heap.blocks[k].start == block
    requires block in TryMerge(Marked(s, k), k).orphans <==> block in Marked(s, k).orphans
    ensures Coalesced(s, k, block) == FreeBlock(s.heap, k)
  {
    hide CanMerge, Replace, Merged;
  }

  // ------------------------------------------------------------ adding memory

  /** Where the backward merge of a fresh region leaves it, and the heap then. */
  ghost function AddedAt(h: Heap, r: Region): nat {
    var p := InsertPos(h.blocks, 0, r.start);
    if p > 0 && CanMerge(Insert(h, r).blocks, p - 1) then p - 1 else p
  }

  ghost function Added(h: Heap, r: Region): Heap {
    var p := InsertPos(h.blocks, 0, r.start);
    if p > 0 && CanMerge(Insert(h, r).blocks, p - 1) then TryMerge(Insert(h, r), p - 1) else Insert(h, r)
  }

  lemma InsertedReady(h: Heap, r: Region)
    requires !r.used && r.start > 0 && forall b :: b in h.blocks ==> b.start > 0
    ensures Ready(Insert(h, r), InsertPos(h.blocks, 0, r.start), r.start) && r.start !in Insert(h, r).orphans
  {
    var p := InsertPos(h.blocks, 0, r.start);
    SpliceMembers(h.blocks, p, p, [r]);
    assert h.blocks == h.blocks[..p] + h.blocks[p..];
    assert Insert(h, r).blocks[p] == r;
  }

  lemma AddedReady(h: Heap, r: Region)
    requires !r.used && r.start > 0 && forall b :: b in h.blocks ==> b.start > 0
    requires Ordered(Insert(h, r).blocks)
    ensures var h', at := Added(h, r), AddedAt(h, r);
            at < |h'.blocks| && Ready(h', at, h'.blocks[at].start)
    ensures Added(h, r).blocks[AddedAt(h, r)].start == Insert(h, r).blocks[AddedAt(h, r)].start
  {
    InsertedReady(h, r);
    var p, h1 := InsertPos(h.blocks, 0, r.start), Insert(h, r);
    if p > 0 && CanMerge(h1.blocks, p - 1) {
      MergedReady(h1, p - 1, h1.blocks[p - 1].start);
    }
  }

  lemma AddOrdered(s: System, r: Region)
    requires SystemInv(s) && Solid(r) && !r.used && Apart(s.heap.blocks, r)
    ensures forall b :: b in s.heap.blocks ==> b.start > 0
    ensures var p, h1 := InsertPos(s.heap.blocks, 0, r.start), Insert(s.heap, r);
            && Ordered(h1.blocks) && (p > 0 ==> Ordered(TryMerge(h1, p - 1).blocks))
            && Ordered(TryMerge(Added(s.heap, r), AddedAt(s.heap, r)).blocks)
            && AddRegion(s.heap, r) == TryMerge(Added(s.heap, r), AddedAt(s.heap, r))
  {
    hide Tiles, LiveMatches, TryMerge, Insert, Ordered;
    var p, h1, donated := InsertPos(s.heap.blocks, 0, r.start), Insert(s.heap, r), s.donated + [r];
    InsertKeeps(s.heap, r, s.donated, s.live);
    if p > 0 { TryMergeKeeps(h1, p - 1, donated, s.live); }
    TryMergeKeeps(Added(s.heap, r), AddedAt(s.heap, r), donated, s.live);
    forall b | b in s.heap.blocks ensures b.start > 0 { assert Solid(b); }
  }

  // ------------------------------------------------------- aligned allocation

  /**
   The front cut of an aligned allocation. The prefix size is a 64-bit difference, so an
   exact fit makes it 2^64 - 32, the exact-fit branch is never taken, and the block's back
   pointer becomes itself.
   */
  function CutFront(mem: map<nat, Header>, block: nat, at: nat): map<nat, Header>
    requires block in mem && (mem[block].next != 0 ==> mem[block].next in mem)
  {
    var b := mem[block];
    var prefix := (at - (block + HEADER)) % U64;
    if prefix == 0 && at == block then mem
    else
      var shrunk := mem[block := b.(size := prefix)];
      var there := if at in shrunk then shrunk[at] else Header(0, false, 0, 0);
      var carved := shrunk[at := there.(prev := block, next := b.next)];
      var linked := carved[block := carved[block].(next := at)];
      if b.next != 0 then linked[b.next := linked[b.next].(prev := at)] else linked
  }

  /** The back cut: the used block at `at`, and the rest when it is worth a header. */
  function CutBack(mem: map<nat, Header>, at: nat, size: nat, suffix: nat, next: nat): map<nat, Header>
    requires at in mem && (next != 0 ==> next in mem)
  {
    var end := at + HEADER + size;
    if suffix > HEADER + MIN_SPLIT then
      var m2 := mem[end := Header(suffix - HEADER, false, next, at)];
      var m3 := m2[at := m2[at].(used := true, size := size, next := end)];
      if next != 0 then m3[next := m3[next].(prev := end)] else m3
    else
      var m3 := mem[at := mem[at].(used := true, size := size + suffix, next := next)];
      if next != 0 then m3[next := m3[next].(prev := at)] else m3
  }

  /** The header writes of an aligned allocation. */
  function AlignedWrites(mem: map<nat, Header>, block: nat, d: nat, size: nat): map<nat, Header>
    requires block in mem && d >= block + HEADER && d + size <= block + HEADER + mem[block].size
    requires mem[block].next != 0 ==> mem[block].next in mem
  {
    CutBack(CutFront(mem, block, d - HEADER), d - HEADER, size, block + HEADER + mem[block].size - (d + size),
            mem[block].next)
  }

  /** What those writes leave at the headers they touch. */
  lemma AlignedValues(mem: map<nat, Header>, block: nat, d: nat, size: nat)
    requires block in mem && d + size <= block + HEADER + mem[block].size && mem[block].size < U64
    requires d == block + HEADER || d >= block + 2 * HEADER
    requires mem[block].next != 0 ==> mem[block].next in mem && mem[block].next >= block + HEADER + mem[block].size
    ensures var mem' := AlignedWrites(mem, block, d, size);
            var b, at, suffix := mem[block], d - HEADER, block + HEADER + mem[block].size - (d + size);
            var keep := suffix <= HEADER + MIN_SPLIT;
            && at in mem'
            && mem'[at] == Header(if keep then size + suffix else size, true, if keep then b.next else d + size, block)
            && (!keep ==> d + size in mem' && mem'[d + size] == Header(suffix - HEADER, false, b.next, at))
            && (at != block ==> block in mem' && mem'[block] == Header(at - block - HEADER, b.used, at, b.prev))
            && (b.next != 0 ==> b.next in mem' && mem'[b.next] == mem[b.next].(prev := if keep then at else d + size))
            && (forall a :: a in mem && a !in {at, block, b.next} && (keep || a != d + size) ==>
                  a in mem' && mem'[a] == mem[a])
  {
  }

  /** An aligned cut of block k at d, on the list and in memory. */
  ghost predicate AlignedScene(mem: map<nat, Header>, mem': map<nat, Header>, h: Heap, h': Heap, k: nat, d: nat,
                               size: nat, mid: seq<Region>) {
    && k < |h.blocks| && HeaderAt(mem, h, k)
    && (k + 1 < |h.blocks| ==> HeaderAt(mem, h, k + 1) && h.blocks[k].End() <= h.blocks[k + 1].start)
    && !h.blocks[k].used && h.blocks[k].End() < U64 && h.blocks[k].start > 0 && d + size <= h.blocks[k].End()
    && (d == h.blocks[k].start + HEADER || d >= h.blocks[k].start + 2 * HEADER)
    && mem' == AlignedWrites(mem, h.blocks[k].start, d, size)
    && h' == TakeAligned(h, k, d, size) && mid == AlignedSplit(h.blocks[k], d, size)
  }

  /** The new list and its back-pointer flags around the cut. */
  lemma AlignedShape(mem: map<nat, Header>, mem': map<nat, Header>, h: Heap, h': Heap, k: nat, d: nat, size: nat,
                     mid: seq<Region>)
    requires AlignedScene(mem, mem', h, h', k, d, size, mid)
    ensures var bs, n := h.blocks, |mid|;
            && |h'.blocks| == |bs| - 1 + n && h'.blocks[k] == mid[0]
            && (n >= 2 ==> h'.blocks[k + 1] == mid[1]) && (n == 3 ==> h'.blocks[k + 2] == mid[2])
            && (k > 0 ==> h'.blocks[k - 1] == bs[k - 1])
            && (k + 1 < |bs| ==> h'.blocks[k + n] == bs[k + 1] && bs[k + 1].start !in h'.orphans)
            && (k + 2 < |bs| ==> h'.blocks[k + n + 1] == bs[k + 2])
            && (d - HEADER in h'.orphans <==> d - HEADER == bs[k].start)
            && (d - HEADER != bs[k].start ==> (bs[k].start in h'.orphans <==> bs[k].start in h.orphans))
            && (mid[n - 1].start != d - HEADER ==> mid[n - 1].start !in h'.orphans)
  {
    hide AlignedWrites, HeaderAt;
    var bs := h.blocks;
    assert h'.blocks == bs[..k] + mid + bs[k + 1..];
  }

  lemma AlignedPrefixHeader(mem: map<nat, Header>, mem': map<nat, Header>, h: Heap, h': Heap, k: nat, d: nat, size: nat,
                            mid: seq<Region>)
    requires AlignedScene(mem, mem', h, h', k, d, size, mid) && d != h.blocks[k].start + HEADER
    ensures k < |h'.blocks| && HeaderAt(mem', h', k)
  {
    hide AlignedWrites, TakeAligned;
    AlignedShape(mem, mem', h, h', k, d, size, mid);
    AlignedValues(mem, h.blocks[k].start, d, size);
  }

  /** The used piece of an aligned cut and what is left behind it. */
  lemma AlignedPieces(b: Region, d: nat, size: nat)
    requires d + size <= b.End() && (d == b.start + HEADER || d >= b.start + 2 * HEADER)
    ensures var mid := AlignedSplit(b, d, size); var suffix := b.End() - (d + size);
            var u := if d == b.start + HEADER then 0 else 1;
            && |mid| == u + (if suffix > HEADER + MIN_SPLIT then 2 else 1)
            && mid[u] == Region(d - HEADER, HEADER + size + (if suffix > HEADER + MIN_SPLIT then 0 else suffix), true)
            && (u == 1 ==> mid[0].start == b.start)
            && (suffix > HEADER + MIN_SPLIT ==> mid[u + 1].start == d + size)
  {
  }

  lemma AlignedUsedHeader(mem: map<nat, Header>, mem': map<nat, Header>, h: Heap, h': Heap, k: nat, d: nat, size: nat,
                          mid: seq<Region>)
    requires AlignedScene(mem, mem', h, h', k, d, size, mid)
    ensures var u := if d == h.blocks[k].start + HEADER then k else k + 1; u < |h'.blocks| && HeaderAt(mem', h', u)
  {
    hide AlignedWrites, TakeAligned, AlignedSplit;
    AlignedShape(mem, mem', h, h', k, d, size, mid);
    AlignedValues(mem, h.blocks[k].start, d, size);
    AlignedPieces(h.blocks[k], d, size);
  }

  lemma AlignedSuffixHeader(mem: map<nat, Header>, mem': map<nat, Header>, h: Heap, h': Heap, k: nat, d: nat, size: nat,
                            mid: seq<Region>)
    requires AlignedScene(mem, mem', h, h', k, d, size, mid) && h.blocks[k].End() - (d + size) > HEADER + MIN_SPLIT
    ensures var u := if d == h.blocks[k].start + HEADER then k else k + 1;
            u + 1 < |h'.blocks| && HeaderAt(mem', h', u + 1)
  {
    hide AlignedWrites, TakeAligned;
    AlignedShape(mem, mem', h, h', k, d, size, mid);
    AlignedValues(mem, h.blocks[k].start, d, size);
  }

  lemma AlignedNextHeader(mem: map<nat, Header>, mem': map<nat, Header>, h: Heap, h': Heap, k: nat, d: nat, size: nat,
                          mid: seq<Region>)
    requires AlignedScene(mem, mem', h, h', k, d, size, mid) && k + 1 < |h.blocks|
    ensures k + |mid| < |h'.blocks| && HeaderAt(mem', h', k + |mid|)
  {
    hide AlignedWrites, TakeAligned;
    AlignedShape(mem, mem', h, h', k, d, size, mid);
    AlignedValues(mem, h.blocks[k].start, d, size);
  }

  lemma AlignedHeaders(mem: map<nat, Header>, mem': map<nat, Header>, h: Heap, h': Heap, k: nat, d: nat, size: nat,
                       mid: seq<Region>)
    requires AlignedScene(mem, mem', h, h', k, d, size, mid)
    ensures |h'.blocks| == |h.blocks| - 1 + |mid|
    ensures forall m :: k <= m < k + |mid| ==> HeaderAt(mem', h', m)
    ensures k + 1 < |h.blocks| ==> HeaderAt(mem', h', k + |mid|)
  {
    hide AlignedWrites, TakeAligned, HeaderAt;
    AlignedShape(mem, mem', h, h', k, d, size, mid);
    AlignedUsedHeader(mem, mem', h, h', k, d, size, mid);
    if d != h.blocks[k].start + HEADER { AlignedPrefixHeader(mem, mem', h, h', k, d, size, mid); }
    if h.blocks[k].End() - (d + size) > HEADER + MIN_SPLIT { AlignedSuffixHeader(mem, mem', h, h', k, d, size, mid); }
    if k + 1 < |h.blocks| { AlignedNextHeader(mem, mem', h, h', k, d, size, mid); }
  }

  lemma AlignedUntouched(mem: map<nat, Header>, mem': map<nat, Header>, h: Heap, h': Heap, k: nat, d: nat, size: nat,
                         mid: seq<Region>)
    requires AlignedScene(mem, mem', h, h', k, d, size, mid) && Ordered(h'.blocks)
             && forall b :: b in h.blocks ==> b.start > 0
    ensures forall i :: 0 <= i < k || k + 1 < i < |h.blocks| ==>
              Untouched(mem, mem', h.orphans, h'.orphans, h.blocks[i].start)
  {
    var bs := h.blocks;
    assert h'.blocks == Splice(bs, k, k + 1, mid);
    forall a | Elsewhere(h'.blocks, k, |mid|, a) && a > 0 ensures Untouched(mem, mem', h.orphans, h'.orphans, a) {
      hide AlignedWrites, Ordered;
      AlignedElsewhere(mem, mem', h, h', k, d, size, mid, a);
    }
    hide TakeAligned, AlignedScene;
    OthersUntouched(mem, mem', h, h', k, k + 1, mid);
  }

  lemma AlignedElsewhere(mem: map<nat, Header>, mem': map<nat, Header>, h: Heap, h': Heap, k: nat, d: nat, size: nat,
                         mid: seq<Region>, a: nat)
    requires AlignedScene(mem, mem', h, h', k, d, size, mid) && Elsewhere(h'.blocks, k, |mid|, a) && a > 0
    ensures Untouched(mem, mem', h.orphans, h'.orphans, a)
  {
    hide AlignedWrites;
    AlignedShape(mem, mem', h, h', k, d, size, mid);
    AlignedValues(mem, h.blocks[k].start, d, size);
    assert h'.blocks[if d == h.blocks[k].start + HEADER then k else k + 1].start == d - HEADER;
    assert h'.blocks[k + |mid| - 1].start == mid[|mid| - 1].start;
  }

  lemma AlignedLinked(mem: map<nat, Header>, mem': map<nat, Header>, head: nat, h: Heap, h': Heap, k: nat, d: nat,
                      size: nat, mid: seq<Region>)
    requires Linked(mem, head, h) && AlignedScene(mem, mem', h, h', k, d, size, mid)
    requires Ordered(h'.blocks) && forall b :: b in h.blocks ==> b.start > 0
    ensures Linked(mem', head, h')
  {
    hide AlignedScene, Linked, HeaderAt, Untouched, Splice, StartAt, Ordered, TakeAligned, AlignedSplit;
    AlignedStarts(mem, mem', h, h', k, d, size, mid);
    NextInMemory(mem, head, h, k);
    AlignedHeaders(mem, mem', h, h', k, d, size, mid);
    AlignedUntouched(mem, mem', h, h', k, d, size, mid);
    SpliceLinked(mem, mem', head, head, h, h', k, k + 1, mid);
  }

  lemma AlignedStarts(mem: map<nat, Header>, mem': map<nat, Header>, h: Heap, h': Heap, k: nat, d: nat, size: nat,
                      mid: seq<Region>)
    requires AlignedScene(mem, mem', h, h', k, d, size, mid)
    ensures k < |h.blocks| && h'.blocks == Splice(h.blocks, k, k + 1, mid)
    ensures StartAt(h'.blocks, 0) == StartAt(h.blocks, 0) && StartAt(h'.blocks, k) == StartAt(h.blocks, k)
  {
    hide HeaderAt, AlignedWrites;
    assert mid[0].start == h.blocks[k].start;
  }

  /** All an aligned allocation needs: the next state is sound and its headers are linked. */
  lemma AlignedStepLinked(mem: map<nat, Header>, head: nat, s: System, size: nat, alignment: nat, k: nat, d: nat)
    requires SystemInv(s) && Linked(mem, head, s.heap) && size > 0 && alignment > MIN_ALIGNMENT && PowerOfTwo(alignment)
    requires k == FindAligned(s.heap.blocks, 0, Rounded(size), alignment) && k < |s.heap.blocks|
    requires d == AlignedIn(s.heap.blocks[k], Rounded(size), alignment)
    ensures var block, n := s.heap.blocks[k].start, Rounded(size);
            && block in mem && (mem[block].next != 0 ==> mem[block].next in mem)
            && d >= block + HEADER && d + n <= block + HEADER + mem[block].size
            && Aligned(s, size, alignment).1 == d && Aligned(s, size, alignment).0.donated == s.donated
            && SystemInv(Aligned(s, size, alignment).0)
            && Linked(AlignedWrites(mem, block, d, n), head, Aligned(s, size, alignment).0.heap)
  {
    hide AlignedIn, Rounded, AlignedWrites, TakeAligned, AlignedSplit;
    var bs, n := s.heap.blocks, Rounded(size);
    AlignedKeeps(s, size, alignment);
    NextInMemory(mem, head, s.heap, k);
    AlignedStops(bs[k], n, alignment);
    assert bs[k] in bs && Solid(bs[k]);
    forall b | b in bs ensures b.start > 0 { assert Solid(b); }
    var h' := TakeAligned(s.heap, k, d, n);
    assert Ordered(h'.blocks);
    AlignedLinked(mem, AlignedWrites(mem, bs[k].start, d, n), head, s.heap, h', k, d, n, AlignedSplit(bs[k], d, n));
  }

  lemma AlignedStops(b: Region, size: nat, alignment: nat)
    requires alignment > 0 && HoldsAligned(b, size, alignment)
    ensures var d := AlignedIn(b, size, alignment);
            d + size <= b.End() && (d == b.start + HEADER || d >= b.start + 2 * HEADER + MIN_SPLIT)
  {
  }

  lemma ApartStart(bs: seq<Region>, r: Region, b: Region)
    requires WellFormed(bs) && Solid(r) && Apart(bs, r) && b in bs
    ensures b.start > 0 && b.start != r.start
  {
    assert Solid(b);
  }

  /** The heap a backward merge of the fresh region leaves, as MergeBackward states it. */
  lemma AddedIs(h: Heap, r: Region)
    requires r.start !in Insert(h, r).orphans
    ensures var p, h1 := InsertPos(h.blocks, 0, r.start), Insert(h, r);
            var merges := p > 0 && r.start !in h1.orphans && CanMerge(h1.blocks, p - 1);
            && Added(h, r) == (if merges then TryMerge(h1, p - 1) else h1)
            && AddedAt(h, r) == (if merges then p - 1 else p)
  {
  }

  class KernelHeap {
    var head: nat
    var mem: map<nat, Header>
    var totalBytes: nat
    ghost var sys: System

    ghost predicate Valid()
      reads this
    {
      SystemInv(sys) && Linked(mem, head, sys.heap) && totalBytes == TotalSize(sys.donated)
    }

    /** An empty heap, before kernel_heap::init. */
    constructor ()
      ensures Valid() && sys == EMPTY_SYSTEM
    {
      head, mem, totalBytes, sys := 0, map[], 0, EMPTY_SYSTEM;
    }

    /** find_heap_block: the address of the first free block that is large enough, or 0. */
    method FindHeapBlock(size: nat) returns (block: nat, ghost k: nat)
      requires Linked(mem, head, sys.heap) && WellFormed(sys.heap.blocks)
      ensures k == FindBlock(sys.heap.blocks, 0, size) && block == StartAt(sys.heap.blocks, k)
      ensures block == 0 <==> k == |sys.heap.blocks|
    {
      ghost var bs := sys.heap.blocks;
      block, k := head, 0;
      while block != 0
        invariant 0 <= k <= |bs| && block == StartAt(bs, k)
        invariant FindBlock(bs, 0, size) == FindBlock(bs, k, size)
        decreases |bs| - k
      {
        assert HeaderAt(mem, sys.heap, k);
        if !mem[block].used && mem[block].size >= size {
          assert bs[k] in bs;
          return;
        }
        block, k := mem[block].next, k + 1;
      }
      assert k < |bs| ==> bs[k] in bs && Solid(bs[k]);
    }

    /** Mark a block used and split off what is worth a header. */
    method TakeFront(block: nat, size: nat)
      requires block in mem && (mem[block].next != 0 ==> mem[block].next in mem)
      modifies this`mem
      ensures mem == TakeWrites(old(mem), block, size)
    {
      var b := mem[block];
      mem := mem[block := b.(used := true)];
      if b.size > size + HEADER + MIN_SPLIT {
        var rest := block + HEADER + size;
        mem := mem[rest := Header(b.size - size - HEADER, false, b.next, block)];
        if b.next != 0 { mem := mem[b.next := mem[b.next].(prev := rest)]; }
        mem := mem[block := mem[block].(next := rest, size := size)];
      }
    }

    /** kernel_heap::allocate without the expansion. */
    method TryAllocate(size: nat) returns (ptr: nat)
      requires Valid() && size < U64
      modifies this
      ensures Valid() && totalBytes == old(totalBytes) && (sys, ptr) == Plain(old(sys), size)
    {
      hide TakeWrites, Linked, TakeBlock, Tiles, LiveMatches, FindBlock, Ordered, Rounded;
      ptr := 0;
      if size == 0 { return; }
      var rounded := Rounded(size);
      var block;
      ghost var k;
      block, k := FindHeapBlock(rounded);
      if block == 0 { return; }
      PlainLinked(mem, head, sys, size, k);
      TakeFront(block, rounded);
      sys := Plain(sys, size).0;
      ptr := block + HEADER;
    }

    /** Coalesce with the next block if it is free and physically adjacent. */
    method MergeForward(block: nat, ghost h: Heap, ghost k: nat)
      requires Linked(mem, head, h) && k < |h.blocks| && h.blocks[k].start == block && !h.blocks[k].used
      requires Ordered(TryMerge(h, k).blocks) && forall b :: b in h.blocks ==> b.start > 0
      modifies this`mem
      ensures Linked(mem, head, TryMerge(h, k))
    {
      NextTest(mem, head, h, k);
      var b := mem[block];
      if b.next != 0 && !mem[b.next].used && block + HEADER + b.size == b.next {
        MergeLinked(mem, head, h, k);
        hide Linked, Ordered, TryMerge;
        var next := mem[b.next];
        mem := mem[block := b.(size := b.size + next.size + HEADER, next := next.next)];
        if next.next != 0 { mem := mem[next.next := mem[next.next].(prev := block)]; }
      }
    }

    /** Coalesce with the block the back pointer names, if free and physically adjacent. */
    method MergeBackward(block: nat, ghost h: Heap, ghost k: nat) returns (survivor: nat)
      requires Linked(mem, head, h) && k < |h.blocks| && h.blocks[k].start == block && !h.blocks[k].used
      requires (k > 0 ==> Ordered(TryMerge(h, k - 1).blocks)) && forall b :: b in h.blocks ==> b.start > 0
      modifies this`mem
      ensures var merges := k > 0 && block !in h.orphans && CanMerge(h.blocks, k - 1);
              && Linked(mem, head, if merges then TryMerge(h, k - 1) else h)
              && survivor == if merges then h.blocks[k - 1].start else block
    {
      PrevTest(mem, head, h, k);
      NextInMemory(mem, head, h, k);
      var b := mem[block];
      survivor := block;
      if b.prev != 0 && !mem[b.prev].used && b.prev + HEADER + mem[b.prev].size == block {
        NextInMemory(mem, head, h, k - 1);
        MergeLinked(mem, head, h, k - 1);
        hide Linked, Ordered, TryMerge;
        survivor := b.prev;
        var p := mem[b.prev];
        mem := mem[b.prev := p.(size := p.size + b.size + HEADER, next := b.next)];
        if b.next != 0 { mem := mem[b.next := mem[b.next].(prev := b.prev)]; }
      }
    }

    /** Mark the block free and coalesce, forwards and then backwards. */
    method Coalesce(block: nat, ghost s: System, ghost k: nat)
      requires k < |s.heap.blocks| && s.heap.blocks[k].start == block && block in mem
      requires Linked(mem[block := mem[block].(used := false)], head, Marked(s, k))
      requires Ready(Marked(s, k), k, block) && Ready(TryMerge(Marked(s, k), k), k, block)
      requires Ordered(TryMerge(Marked(s, k), k).blocks)
      requires k > 0 ==> Ordered(TryMerge(TryMerge(Marked(s, k), k), k - 1).blocks)
      modifies this`mem
      ensures Linked(mem, head, Coalesced(s, k, block))
    {
      hide Linked, Ordered, TryMerge, Marked;
      mem := mem[block := mem[block].(used := false)];
      MergeForward(block, Marked(s, k), k);
      var _ := MergeBackward(block, TryMerge(Marked(s, k), k), k);
    }

    /** kernel_heap::free */
    method Free(ptr: nat)
      requires Valid() && ValidOp(sys, FreePtr(ptr))
      modifies this
      ensures Valid() && totalBytes == old(totalBytes) && sys == Step(old(sys), FreePtr(ptr))
    {
      hide Linked, Ordered, TryMerge, Marked, MarkFree, Step, SystemInv, Coalesced, Ready;
      if ptr == 0 {
        NullFree(sys);
        return;
      }
      var block := ptr - HEADER;
      ghost var k := IndexOf(sys.heap.blocks, 0, block);
      FreeStages(sys, block, k);
      MarkLinked(mem, head, sys, sys.heap, k);
      Coalesce(block, sys, k);
      sys := Step(sys, FreePtr(ptr));
    }

    /** The candidate search inside one free block. */
    method AlignedCandidate(block: nat, size: nat, alignment: nat) returns (d: nat)
      requires block in mem && alignment > 0
      ensures d == AlignedIn64(Region(block, HEADER + mem[block].size, mem[block].used), size, alignment)
    {
      var start, end := block + HEADER, block + HEADER + mem[block].size;
      ghost var b := Region(block, HEADER + mem[block].size, mem[block].used);
      d := AlignUp(start, alignment);
      while true
        invariant d >= start && AlignedIn64(b, size, alignment) == AlignedData64(b, size, alignment, d)
        decreases block + 2 * HEADER + MIN_SPLIT - d
      {
        var at := d - HEADER;
        if at == block { break; }
        if at >= start && at - start >= MIN_SPLIT { break; }
        if (d + size) % U64 > end { break; }
        d := d + alignment;
      }
    }

    /** find_aligned_heap_block: block address and aligned data address, or 0. */
    method FindAlignedBlock(size: nat, alignment: nat) returns (block: nat, d: nat, ghost k: nat)
      requires Linked(mem, head, sys.heap) && WellFormed(sys.heap.blocks) && alignment > 0
      ensures k == FindAligned64(sys.heap.blocks, 0, size, alignment)
      ensures block == StartAt(sys.heap.blocks, FindAligned64(sys.heap.blocks, 0, size, alignment))
      ensures block == 0 <==> k == |sys.heap.blocks|
      ensures k < |sys.heap.blocks| ==> d == AlignedIn64(sys.heap.blocks[k], size, alignment)
    {
      hide AlignedIn64, Ordered;
      ghost var bs := sys.heap.blocks;
      block, d, k := head, 0, 0;
      while block != 0
        invariant 0 <= k <= |bs| && block == StartAt(bs, k)
        invariant FindAligned64(bs, 0, size, alignment) == FindAligned64(bs, k, size, alignment)
        decreases |bs| - k
      {
        assert HeaderAt(mem, sys.heap, k);
        assert bs[k] == Region(block, HEADER + mem[block].size, mem[block].used);
        if !mem[block].used {
          d := AlignedCandidate(block, size, alignment);
          if (d + size) % U64 <= block + HEADER + mem[block].size {
            assert bs[k] in bs && Solid(bs[k]);
            return;
          }
        }
        block, k := mem[block].next, k + 1;
      }
      assert k < |bs| ==> bs[k] in bs && Solid(bs[k]);
    }

    method CutPrefix(block: nat, at: nat)
      requires block in mem && (mem[block].next != 0 ==> mem[block].next in mem)
      modifies this`mem
      ensures mem == CutFront(old(mem), block, at)
    {
      var oldNext, prefix := mem[block].next, (at - (block + HEADER)) % U64;
      if !(prefix == 0 && at == block) {
        mem := mem[block := mem[block].(size := prefix)];
        var used := if at in mem then mem[at] else Header(0, false, 0, 0);
        mem := mem[at := used.(prev := block, next := oldNext)];
        mem := mem[block := mem[block].(next := at)];
        if oldNext != 0 { mem := mem[oldNext := mem[oldNext].(prev := at)]; }
      }
    }

    method CutSuffix(at: nat, size: nat, suffix: nat, oldNext: nat)
      requires at in mem && (oldNext != 0 ==> oldNext in mem)
      modifies this`mem
      ensures mem == CutBack(old(mem), at, size, suffix, oldNext)
    {
      if suffix > HEADER + MIN_SPLIT {
        var end := at + HEADER + size;
        mem := mem[end := Header(suffix - HEADER, false, oldNext, at)];
        mem := mem[at := mem[at].(used := true, size := size, next := end)];
        if oldNext != 0 { mem := mem[oldNext := mem[oldNext].(prev := end)]; }
      } else {
        mem := mem[at := mem[at].(used := true, size := size + suffix, next := oldNext)];
        if oldNext != 0 { mem := mem[oldNext := mem[oldNext].(prev := at)]; }
      }
    }

    /** Cut the block in memory. */
    method CutAligned(block: nat, d: nat, size: nat)
      requires block in mem && d >= block + HEADER && d + size <= block + HEADER + mem[block].size
      requires mem[block].next != 0 ==> mem[block].next in mem
      modifies this`mem
      ensures mem == AlignedWrites(old(mem), block, d, size)
    {
      var oldNext, suffix := mem[block].next, block + HEADER + mem[block].size - (d + size);
      CutPrefix(block, d - HEADER);
      CutSuffix(d - HEADER, size, suffix, oldNext);
    }

    /** kernel_heap::allocate_zero_aligned without the expansion. */
    method TryAllocateAligned(size: nat, alignment: nat) returns (ptr: nat)
      requires Valid() && ValidOp(sys, AllocateAligned(size, alignment))
      modifies this
      ensures Valid() && totalBytes == old(totalBytes) && (sys, ptr) == Aligned(old(sys), size, alignment)
    {
      hide AlignedWrites, Linked, TakeAligned, Tiles, LiveMatches, AlignedIn;
      ptr := 0;
      if size == 0 { return; }
      if alignment <= MIN_ALIGNMENT {
        ptr := TryAllocate(size);
        return;
      }
      if !PowerOfTwo(alignment) { return; }
      var block, d;
      ghost var k;
      block, d, k := FindAlignedBlock(Rounded(size), alignment);
      FindIn64(sys.heap.blocks, Rounded(size), alignment);
      if block == 0 { return; }
      AlignedStepLinked(mem, head, sys, size, alignment, k, d);
      CutAligned(block, d, Rounded(size));
      sys := Aligned(sys, size, alignment).0;
      ptr := d;
    }

    /** Link a fresh block in at its place in the address order. */
    method InsertBlock(base: nat, size: nat, ghost s: System)
      requires s == sys && Linked(mem, head, s.heap) && size >= HEADER && base > 0
      requires Solid(Region(base, size, false)) && Apart(s.heap.blocks, Region(base, size, false))
      requires WellFormed(s.heap.blocks) && Ordered(Insert(s.heap, Region(base, size, false)).blocks)
      modifies this`mem, this`head
      ensures Linked(mem, head, Insert(s.heap, Region(base, size, false)))
    {
      hide Ordered, Insert, Apart;
      ghost var r, h, bs := Region(base, size, false), s.heap, s.heap.blocks;
      ghost var p := InsertPos(bs, 0, base);
      forall b | b in bs ensures b.start > 0 && b.start != base { ApartStart(bs, r, b); }
      if head == 0 || base < head {
        assert |bs| > 0 ==> bs[0] in bs;
        PushLinked(mem, head, h, r);
        mem := mem[base := Header(size - HEADER, false, head, 0)];
        if head != 0 { mem := mem[head := mem[head].(prev := base)]; }
        head := base;
      } else {
        var current := head;
        ghost var i := 0;
        assert bs[0] in bs && HeaderAt(mem, h, 0);
        while mem[current].next != 0 && mem[current].next < base
          invariant 0 <= i < |bs| && current == bs[i].start && HeaderAt(mem, h, i) && p == InsertPos(bs, i + 1, base)
          decreases |bs| - i
        {
          assert bs[i + 1] in bs && HeaderAt(mem, h, i + 1);
          current, i := mem[current].next, i + 1;
        }
        assert i + 1 < |bs| ==> bs[i + 1] in bs && HeaderAt(mem, h, i + 1);
        assert p == i + 1;
        InsertLinked(mem, head, h, r, p);
        var next := mem[current].next;
        mem := mem[base := Header(size - HEADER, false, next, current)];
        mem := mem[current := mem[current].(next := base)];
        if next != 0 { mem := mem[next := mem[next].(prev := base)]; }
      }
    }

    /** kernel_heap::init on an empty heap, and kernel_heap::add_region. */
    method AddMemory(base: nat, size: nat) returns (ok: bool)
      requires Valid() && ValidOp(sys, Donate(base, size))
      modifies this
      ensures Valid() && sys == Step(old(sys), Donate(base, size)) && (ok <==> base != 0 && size > HEADER)
    {
      hide Linked, Ordered, TryMerge, Insert, AddRegion, Added, AddedAt, Ready, Tiles, LiveMatches;
      if base == 0 || size <= HEADER { return false; }
      ghost var s, r := sys, Region(base, size, false);
      AddRegionKeeps(s.heap, r, s.donated, s.live);
      AddOrdered(s, r);
      InsertedReady(s.heap, r);
      AddedReady(s.heap, r);
      TotalSizeConcat(s.donated, [r]);
      InsertBlock(base, size, s);
      var block := MergeBackward(base, Insert(s.heap, r), InsertPos(s.heap.blocks, 0, base));
      AddedIs(s.heap, r);
      MergeForward(block, Added(s.heap, r), AddedAt(s.heap, r));
      totalBytes := totalBytes + size;
      sys := Step(sys, Donate(base, size));
      return true;
    }

    /**
     kernel_heap::allocate: `phys` is what the page allocator returns if it is asked for
     GrowBytes bytes, 0 when it has none. The retry after an expansion always succeeds.
     */
    method Allocate(size: nat, phys: nat) returns (ptr: nat)
      requires Valid() && size < U64
      requires phys > 0 && size > 0 ==> ValidOp(sys, Donate(phys, GrowBytes(Rounded(size), MIN_ALIGNMENT)))
      modifies this
      ensures Valid()
      ensures ptr == 0 <==> size == 0 || (Plain(old(sys), size).1 == 0
                                          && (phys == 0 || GrowBytes(Rounded(size), MIN_ALIGNMENT) == 0))
      ensures sys == if Plain(old(sys), size).1 != 0 || ptr == 0 then Plain(old(sys), size).0
                     else Plain(Step(old(sys), Donate(phys, GrowBytes(Rounded(size), MIN_ALIGNMENT))), size).0
    {
      hide SystemInv, Linked, GrowBytes, ValidOp;
      ptr := TryAllocate(size);
      if ptr != 0 || size == 0 { return; }
      assert sys == old(sys);
      var bytes := GrowBytes(Rounded(size), MIN_ALIGNMENT);
      if bytes == 0 || phys == 0 { return; }
      ExpansionSuffices(sys.heap, Rounded(size), MIN_ALIGNMENT, phys);
      GrowIsEnough(Rounded(size), MIN_ALIGNMENT);
      var _ := AddMemory(phys, bytes);
      ptr := TryAllocate(size);
    }
  }
}
