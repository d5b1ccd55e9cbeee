/**
 The kernel heap as functions on its forward block list. A block is a Region whose size
 includes the 32-byte header, so a list that tiles memory is a list of adjacent regions.
 `orphans` holds the blocks whose back pointer is themselves: an allocation that is exactly
 aligned leaves one behind, and freeing it then does not merge backwards.
 */
module HeapModel {
  import opened Machine
  import opened Alignment
  import opened Regions

  const HEADER: nat := 32
  const MIN_ALIGNMENT: nat := 16
  const MIN_SPLIT: nat := 16

  datatype Heap = Heap(blocks: seq<Region>, orphans: set<nat>)

  function StartAt(bs: seq<Region>, i: nat): nat { if i < |bs| then bs[i].start else 0 }

  /** Replace blocks lo .. hi and repair the back pointer of the block that follows. */
  function Replace(h: Heap, lo: nat, hi: nat, mid: seq<Region>, orphans: set<nat>): Heap
    requires lo <= hi <= |h.blocks|
  {
    Heap(Splice(h.blocks, lo, hi, mid), orphans - {StartAt(h.blocks, hi)})
  }

  // ---------------------------------------------------------------- allocate

  /** 16-byte rounding in 64-bit arithmetic. */
  function Rounded(size: nat): nat { AlignUp(size, MIN_ALIGNMENT) % U64 }

  predicate Holds(b: Region, size: nat) { !b.used && b.size >= size + HEADER }

  function FindBlock(bs: seq<Region>, i: nat, size: nat): (k: nat)
    requires i <= |bs|
    ensures i <= k <= |bs|
    ensures k < |bs| ==> Holds(bs[k], size)
    ensures forall j :: i <= j < k ==> !Holds(bs[j], size)
    decreases |bs| - i
  {
    if i == |bs| || Holds(bs[i], size) then i else FindBlock(bs, i + 1, size)
  }

  function SplitBlock(b: Region, size: nat): seq<Region>
    requires Holds(b, size)
  {
    if b.size - HEADER > size + HEADER + MIN_SPLIT
    then [Region(b.start, HEADER + size, true), Region(b.start + HEADER + size, b.size - HEADER - size, false)]
    else [b.(used := true)]
  }

  function TakeBlock(h: Heap, k: nat, size: nat): Heap
    requires k < |h.blocks| && Holds(h.blocks[k], size)
  {
    var mid := SplitBlock(h.blocks[k], size);
    if |mid| == 1 then Heap(Splice(h.blocks, k, k + 1, mid), h.orphans)
    else Replace(h, k, k + 1, mid, h.orphans - {mid[1].start})
  }

  // -------------------------------------------------------- aligned allocate

  /** Stop at an exact fit, past a usable prefix, or past the end of the block. */
  predicate StopsAt(b: Region, size: nat, data: nat) {
    data == b.start + HEADER || data >= b.start + 2 * HEADER + MIN_SPLIT || data + size > b.End()
  }

  /** The inner search of find_aligned_heap_block. */
  function AlignedData(b: Region, size: nat, alignment: nat, data: nat): (d: nat)
    requires alignment > 0
    ensures d >= data && StopsAt(b, size, d)
    decreases b.End() - data
  {
    if StopsAt(b, size, data) then data else AlignedData(b, size, alignment, data + alignment)
  }

  function AlignedIn(b: Region, size: nat, alignment: nat): (d: nat)
    requires alignment > 0
    ensures d >= b.start + HEADER
  {
    AlignedData(b, size, alignment, AlignUp(b.start + HEADER, alignment))
  }

  predicate HoldsAligned(b: Region, size: nat, alignment: nat)
    requires alignment > 0
  {
    !b.used && AlignedIn(b, size, alignment) + size <= b.End()
  }

  function FindAligned(bs: seq<Region>, i: nat, size: nat, alignment: nat): (k: nat)
    requires i <= |bs| && alignment > 0
    ensures i <= k <= |bs|
    ensures k < |bs| ==> HoldsAligned(bs[k], size, alignment)
    ensures forall j :: i <= j < k ==> !HoldsAligned(bs[j], size, alignment)
    decreases |bs| - i
  {
    if i == |bs| || HoldsAligned(bs[i], size, alignment) then i else FindAligned(bs, i + 1, size, alignment)
  }

  // --------------------------------------- the same search in 64-bit arithmetic

  /** The end of the request is computed as a 64-bit word; the data address itself stays small. */
  predicate StopsAt64(b: Region, size: nat, data: nat) {
    data == b.start + HEADER || data >= b.start + 2 * HEADER + MIN_SPLIT || (data + size) % U64 > b.End()
  }

  function AlignedData64(b: Region, size: nat, alignment: nat, data: nat): (d: nat)
    requires alignment > 0
    ensures d >= data && StopsAt64(b, size, d)
    decreases b.start + 2 * HEADER + MIN_SPLIT - data
  {
    if StopsAt64(b, size, data) then data else AlignedData64(b, size, alignment, data + alignment)
  }

  function AlignedIn64(b: Region, size: nat, alignment: nat): (d: nat)
    requires alignment > 0
    ensures d >= b.start + HEADER
  {
    AlignedData64(b, size, alignment, AlignUp(b.start + HEADER, alignment))
  }

  /** The test of find_aligned_heap_block. */
  predicate HoldsAligned64(b: Region, size: nat, alignment: nat)
    requires alignment > 0
  {
    !b.used && (AlignedIn64(b, size, alignment) + size) % U64 <= b.End()
  }

  /** The end wraps, and what is left of it looks like an address inside the block. */
  predicate Bogus(b: Region, size: nat, alignment: nat)
    requires alignment > 0
  {
    HoldsAligned64(b, size, alignment) && AlignedIn64(b, size, alignment) + size >= U64
  }

  function FindAligned64(bs: seq<Region>, i: nat, size: nat, alignment: nat): (k: nat)
    requires i <= |bs| && alignment > 0
    ensures i <= k <= |bs|
    ensures k < |bs| ==> HoldsAligned64(bs[k], size, alignment)
    ensures forall j :: i <= j < k ==> !HoldsAligned64(bs[j], size, alignment)
    decreases |bs| - i
  {
    if i == |bs| || HoldsAligned64(bs[i], size, alignment) then i else FindAligned64(bs, i + 1, size, alignment)
  }

  /** The end of what the search found, if it found anything, does not wrap. */
  predicate EndFits(bs: seq<Region>, size: nat, alignment: nat)
    requires alignment > 0
  {
    var k := FindAligned64(bs, 0, size, alignment);
    k < |bs| ==> AlignedIn64(bs[k], size, alignment) + size < U64
  }

  /** A free prefix unless the fit is exact, the used block at d - HEADER, and the free rest
      of b when it is worth a header. */
  function AlignedSplit(b: Region, d: nat, size: nat): seq<Region>
    requires b.start + HEADER <= d && d + size <= b.End()
  {
    var rest := b.End() - (d + size);
    var exact, keep := d - HEADER == b.start, rest <= HEADER + MIN_SPLIT;
    var prefix := Region(b.start, d - HEADER - b.start, false);
    var used := Region(d - HEADER, HEADER + size + (if keep then rest else 0), true);
    var suffix := Region(d + size, rest, false);
    if exact then (if keep then [used] else [used, suffix])
    else if keep then [prefix, used] else [prefix, used, suffix]
  }

  function TakeAligned(h: Heap, k: nat, d: nat, size: nat): Heap
    requires k < |h.blocks| && h.blocks[k].start + HEADER <= d && d + size <= h.blocks[k].End()
  {
    var b := h.blocks[k];
    var mid := AlignedSplit(b, d, size);
    var exact := if d - HEADER == b.start then {b.start} else {};
    Replace(h, k, k + 1, mid, h.orphans - {d - HEADER, mid[|mid| - 1].start} + exact)
  }

  // -------------------------------------------------------------------- free

  predicate CanMerge(bs: seq<Region>, k: nat) {
    k + 1 < |bs| && !bs[k].used && !bs[k + 1].used && bs[k].End() == bs[k + 1].start
  }

  function Merged(bs: seq<Region>, k: nat): Region
    requires CanMerge(bs, k)
  {
    Region(bs[k].start, bs[k].size + bs[k + 1].size, false)
  }

  function TryMerge(h: Heap, k: nat): Heap {
    if CanMerge(h.blocks, k) then Replace(h, k, k + 2, [Merged(h.blocks, k)], h.orphans) else h
  }

  function MarkFree(h: Heap, k: nat): Heap
    requires k < |h.blocks|
  {
    Heap(Splice(h.blocks, k, k + 1, [h.blocks[k].(used := false)]), h.orphans)
  }

  /** Merge with the next block, then, through the back pointer, with the previous one. */
  function FreeBlock(h: Heap, k: nat): Heap
    requires k < |h.blocks|
  {
    var freed := TryMerge(MarkFree(h, k), k);
    if k > 0 && h.blocks[k].start !in h.orphans then TryMerge(freed, k - 1) else freed
  }

  // -------------------------------------------------------------- add region

  function InsertPos(bs: seq<Region>, i: nat, start: nat): (p: nat)
    requires i <= |bs|
    ensures i <= p <= |bs|
    ensures forall j :: i <= j < p ==> bs[j].start < start
    ensures p < |bs| ==> start <= bs[p].start
    decreases |bs| - i
  {
    if i == |bs| || start <= bs[i].start then i else InsertPos(bs, i + 1, start)
  }

  function Insert(h: Heap, r: Region): Heap {
    var p := InsertPos(h.blocks, 0, r.start);
    Replace(h, p, p, [r], h.orphans - {r.start})
  }

  function AddRegion(h: Heap, r: Region): Heap {
    var p := InsertPos(h.blocks, 0, r.start);
    var h1 := Insert(h, r);
    if p > 0 && CanMerge(h1.blocks, p - 1) then TryMerge(TryMerge(h1, p - 1), p - 1) else TryMerge(h1, p)
  }

  // -------------------------------------------------------------- invariants

  ghost predicate Solid(b: Region) { b.start > 0 && b.size >= HEADER && b.End() <= ADDRESS_LIMIT }

  ghost predicate WellFormed(bs: seq<Region>) {
    Ordered(bs) && forall b :: b in bs ==> Solid(b)
  }

  /** The blocks tile the donated memory. */
  ghost predicate Tiles(bs: seq<Region>, donated: seq<Region>) {
    && TotalSize(bs) == TotalSize(donated)
    && (forall x :: Covered(bs, x) <==> Covered(donated, x))
  }

  ghost predicate Aligned16(bs: seq<Region>) {
    forall b :: b in bs ==> b.start % 16 == 0 && b.size % 16 == 0
  }

  ghost predicate Apart(bs: seq<Region>, r: Region) {
    forall b :: b in bs ==> b.End() <= r.start || r.End() <= b.start
  }

  ghost predicate HeapInv(bs: seq<Region>, donated: seq<Region>, live: map<nat, nat>) {
    WellFormed(bs) && Tiles(bs, donated) && LiveMatches(bs, live)
  }

  // --------------------------------------------------------------- expansion

  const MIN_SUBHEAP: nat := 1024 * 1024

  /** Bytes a new subheap asks the page allocator for, or 0 when the request is refused. */
  function GrowBytes(size: nat, alignment: nat): nat {
    var slack := Max(Max(alignment, MIN_ALIGNMENT), PAGE);
    if size == 0 || size + HEADER + slack > U64 - 1 then 0
    else
      var minimum := size + HEADER + slack;
      if minimum > (U64 - 1 - PAGE) / 2 then 0
      else
        var grown := AlignUp(minimum * 2 + PAGE, PAGE);
        var bytes := Max(grown, MIN_SUBHEAP);
        if bytes / PAGE == 0 || bytes / PAGE > 0xFFFF_FFFF then 0 else bytes
  }

  // -------------------------------------------------------------------- runs

  datatype Op =
    | Donate(base: nat, bytes: nat)
    | Allocate(size: nat)
    | AllocateAligned(size: nat, alignment: nat)
    | FreePtr(ptr: nat)

  /** The heap with the memory it was given and what its clients hold, by header address. */
  datatype System = System(heap: Heap, donated: seq<Region>, live: map<nat, nat>)

  const EMPTY_SYSTEM := System(Heap([], {}), [], map[])

  function IndexOf(bs: seq<Region>, i: nat, start: nat): (k: nat)
    requires i <= |bs|
    ensures i <= k <= |bs|
    ensures k < |bs| ==> bs[k].start == start
    ensures forall j :: i <= j < k ==> bs[j].start != start
    decreases |bs| - i
  {
    if i == |bs| || bs[i].start == start then i else IndexOf(bs, i + 1, start)
  }

  ghost predicate ValidOp(s: System, op: Op) {
    match op
    case Donate(base, bytes) =>
      base == 0 || bytes <= HEADER || (Solid(Region(base, bytes, false))
                                       && Apart(s.heap.blocks, Region(base, bytes, false)))
    case Allocate(size) => size < U64
    case AllocateAligned(size, alignment) =>
      size < U64 && alignment < U64 && (alignment > MIN_ALIGNMENT ==> EndFits(s.heap.blocks, Rounded(size), alignment))
    case FreePtr(ptr) => ptr == 0 || (ptr > HEADER && ptr - HEADER in s.live)
  }

  /** Plain allocation: new system and pointer, 0 when no block holds the rounded request. */
  function Plain(s: System, size: nat): (System, nat) {
    var k := FindBlock(s.heap.blocks, 0, Rounded(size));
    if size == 0 || k == |s.heap.blocks| then (s, 0)
    else
      var a := s.heap.blocks[k].start;
      (s.(heap := TakeBlock(s.heap, k, Rounded(size)), live := s.live[a := HEADER + Rounded(size)]), a + HEADER)
  }

  function Aligned(s: System, size: nat, alignment: nat): (System, nat) {
    if size == 0 then (s, 0)
    else if alignment <= MIN_ALIGNMENT then Plain(s, size)
    else if !PowerOfTwo(alignment) then (s, 0)
    else
      var k := FindAligned(s.heap.blocks, 0, Rounded(size), alignment);
      if k == |s.heap.blocks| then (s, 0)
      else
        var d := AlignedIn(s.heap.blocks[k], Rounded(size), alignment);
        (s.(heap := TakeAligned(s.heap, k, d, Rounded(size)), live := s.live[d - HEADER := HEADER + Rounded(size)]), d)
  }

  function Step(s: System, op: Op): System {
    match op
    case Donate(base, bytes) =>
      if base == 0 || bytes <= HEADER then s
      else s.(heap := AddRegion(s.heap, Region(base, bytes, false)),
              donated := s.donated + [Region(base, bytes, false)])
    case Allocate(size) => Plain(s, size).0
    case AllocateAligned(size, alignment) => Aligned(s, size, alignment).0
    case FreePtr(ptr) =>
      if ptr <= HEADER then s
      else
        var k := IndexOf(s.heap.blocks, 0, ptr - HEADER);
        if k == |s.heap.blocks| then s else s.(heap := FreeBlock(s.heap, k), live := s.live - {ptr - HEADER})
  }

  ghost predicate ValidRun(s: System, ops: seq<Op>)
    decreases |ops|
  {
    ops == [] || (ValidOp(s, ops[0]) && ValidRun(Step(s, ops[0]), ops[1..]))
  }

  function Run(s: System, ops: seq<Op>): System
    decreases |ops|
  {
    if ops == [] then s else Run(Step(s, ops[0]), ops[1..])
  }

  ghost predicate SystemInv(s: System) {
    match s case System(heap, donated, live) => HeapInv(heap.blocks, donated, live)
  }
}
