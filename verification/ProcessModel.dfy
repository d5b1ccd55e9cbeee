/**
 A process's memory bookkeeping: the list of tracked allocations, the program break, and the
 flat map from virtual pages to frames that the page tables represent. What the page allocator
 and the kernel heap answer is part of each request: see Grant.
 */
module ProcessModel {
  import opened Machine
  import opened Wrappers

  const HEAP_BASE: nat := 0x4100_0000_0000
  const MMAP_BASE: nat := 0x5000_0000_0000
  const MAP_LIMIT: nat := 0x8000_0000_0000
  const CEILING: nat := 0x8000_0000
  const WRITABLE_USER: nat := 3

  /** A tracked allocation: virtual start, physical start, bytes. */
  datatype Rec = Rec(user: nat, raw: nat, size: nat, fromPhys: bool)

  datatype Frame = Frame(phys: nat, flags: nat)

  /** `pages` is keyed by page number; `held` is what the page allocator has given out, base to
      bytes; `records` has the newest first. */
  datatype State = State(records: seq<Rec>, brkBase: nat, brkCurrent: nat, mappedEnd: nat, mapNext: nat,
                         pages: map<nat, Frame>, held: map<nat, nat>)

  function Initial(): State { State([], HEAP_BASE, HEAP_BASE, HEAP_BASE, MMAP_BASE, map[], map[]) }

  /** align_up to a page in 64-bit arithmetic. */
  function PageUp(x: nat): (r: nat)
    ensures r % 4096 == 0 && (x + 4095 < U64 ==> x <= r < x + 4096)
  {
    (x + 4095) % U64 / 4096 * 4096
  }

  // ------------------------------------------------------------ page mapping

  /** map_contiguous, page by page. */
  function MapRange(pages: map<nat, Frame>, first: nat, n: nat, phys: nat, flags: nat): (r: map<nat, Frame>)
    ensures forall p :: p in r <==> p in pages || first <= p < first + n
    ensures forall p :: p in r ==>
              r[p] == if first <= p < first + n then Frame(phys + (p - first) * 4096, flags) else pages[p]
  {
    if n == 0 then pages
    else MapRange(pages, first, n - 1, phys, flags)[first + n - 1 := Frame(phys + (n - 1) * 4096, flags)]
  }

  function UnmapRange(pages: map<nat, Frame>, first: nat, n: nat): map<nat, Frame> {
    map p | p in pages && !(first <= p < first + n) :: pages[p]
  }

  /** What allocating frames, mapping them and recording them met: no frames, or frames at
      `phys` of which the first `mapped` pages could be mapped, and room for a record or not. */
  datatype Grant = NoFrames | Frames(phys: nat, mapped: nat, tracked: bool)

  /** The page count the page allocator is asked for is cut to 32 bits. */
  function PageCount(bytes: nat): nat { bytes / 4096 % 0x1_0000_0000 }

  predicate Fits32(bytes: nat) { bytes / 4096 < 0x1_0000_0000 }

  /** allocate_user_pages: after a failed mapping the frames go back, the mapped pages stay. A
      count of zero is refused by the page allocator. */
  function AllocateUserPages(s: State, virt: nat, bytes: nat, flags: nat, grant: Grant): (State, Option<nat>) {
    if grant.NoFrames? || PageCount(bytes) == 0 then (s, None)
    else if grant.mapped < bytes / 4096 then
      (s.(pages := MapRange(s.pages, virt / 4096, grant.mapped, grant.phys, flags)), None)
    else
      (s.(pages := MapRange(s.pages, virt / 4096, bytes / 4096, grant.phys, flags),
          held := s.held[grant.phys := PageCount(bytes) * 4096]),
       Some(grant.phys))
  }

  /** free_process_allocation_pages: an address that is not the start of a block is ignored. */
  function FreeFrames(s: State, phys: nat): State { s.(held := s.held - {phys}) }

  function UnmapAndFree(s: State, virt: nat, bytes: nat, phys: nat): State {
    FreeFrames(s.(pages := UnmapRange(s.pages, virt / 4096, bytes / 4096)), phys)
  }

  // --------------------------------------------------------------------- brk

  datatype Answer = Break(at: nat) | Invalid | NoMemory

  predicate IsTop(s: State, r: Rec) {
    r.raw != r.user && r.fromPhys && r.user >= s.brkBase && r.user + r.size == s.mappedEnd
  }

  /** First record, from i on, that ends at the mapped end. */
  function FindTop(s: State, i: nat): (r: nat)
    requires i <= |s.records|
    ensures i <= r <= |s.records|
    ensures r < |s.records| ==> IsTop(s, s.records[r])
    ensures forall j :: i <= j < r ==> !IsTop(s, s.records[j])
    decreases |s.records| - i
  {
    if i == |s.records| || IsTop(s, s.records[i]) then i else FindTop(s, i + 1)
  }

  function Without<T>(s: seq<T>, i: nat): seq<T>
    requires i < |s|
  {
    s[..i] + s[i + 1..]
  }

  /** One round of the shrink loop on the topmost record i: drop it, or cut it. */
  function ShrinkTop(s: State, i: nat, desired: nat): State
    requires i < |s.records| && desired < s.mappedEnd && IsTop(s, s.records[i])
  {
    var r := s.records[i];
    if desired <= r.user then
      UnmapAndFree(s.(records := Without(s.records, i), mappedEnd := r.user), r.user, r.size, r.raw)
    else
      var keep := r.size - (s.mappedEnd - desired);
      UnmapAndFree(s.(records := s.records[i := r.(size := keep)], mappedEnd := desired),
                   r.user + keep, s.mappedEnd - desired, r.raw + keep)
  }

  /** The shrink loop, terminating on every record list; false when no record ends at the mapped end. */
  function Shrink(s: State, desired: nat): (State, bool)
    decreases s.mappedEnd, |s.records|
  {
    if s.mappedEnd <= desired then (s, true)
    else
      var i := FindTop(s, 0);
      if i == |s.records| then (s, false)
      else Shrink(ShrinkTop(s, i, desired), desired)
  }

  /** Map and record the pages from the mapped end up to `desired`. */
  function Grow(s: State, requested: nat, desired: nat, grant: Grant): (State, Answer)
    requires desired > s.mappedEnd
  {
    var bytes := desired - s.mappedEnd;
    var (t, phys) := AllocateUserPages(s, s.mappedEnd, bytes, WRITABLE_USER, grant);
    if phys.None? then (t, NoMemory)
    else if !grant.tracked then (UnmapAndFree(t, s.mappedEnd, bytes, phys.value), NoMemory)
    else
      (t.(records := [Rec(s.mappedEnd, phys.value, bytes, true)] + s.records, mappedEnd := desired,
          brkCurrent := requested),
       Break(requested))
  }

  /** adjust_process_brk. */
  function Brk(s: State, requested: nat, grant: Grant): (State, Answer) {
    if requested == 0 then (s, Break(s.brkCurrent))
    else if requested < s.brkBase || requested >= MMAP_BASE then (s, Invalid)
    else
      var desired := PageUp(requested);
      if desired > s.mappedEnd then Grow(s, requested, desired, grant)
      else
        var (t, ok) := Shrink(s, desired);
        if ok then (t.(brkCurrent := requested), Break(requested)) else (t, Invalid)
  }

  // -------------------------------------------------------------- mmap, munmap

  predicate RangeUnmapped(pages: map<nat, Frame>, first: nat, n: nat) {
    forall p :: first <= p < first + n ==> p !in pages
  }

  /** The search of allocate_process_mapping, one page up at a time. */
  function FindBase(pages: map<nat, Frame>, base: nat, bytes: nat): (r: Option<nat>)
    requires base % 4096 == 0 && bytes % 4096 == 0
    ensures r.Some? ==>
              && r.value % 4096 == 0 && base <= r.value && r.value + bytes <= MAP_LIMIT
              && RangeUnmapped(pages, r.value / 4096, bytes / 4096)
    decreases if base <= MAP_LIMIT then MAP_LIMIT - base + 1 else 0
  {
    if bytes == 0 || base + bytes > MAP_LIMIT then None
    else if RangeUnmapped(pages, base / 4096, bytes / 4096) then Some(base)
    else FindBase(pages, base + 4096, bytes)
  }

  /** Map and record `bytes` bytes at a base already found. */
  function MapAt(s: State, base: nat, bytes: nat, flags: nat, grant: Grant): (State, Option<nat>) {
    var (t, phys) := AllocateUserPages(s, base, bytes, flags, grant);
    if phys.None? then (t, None)
    else
      var u := t.(mapNext := base + bytes);
      if !grant.tracked then (UnmapAndFree(u, base, bytes, phys.value), None)
      else (u.(records := [Rec(base, phys.value, bytes, true)] + s.records), Some(base))
  }

  /** The mmap system call for anonymous memory: address, or None. */
  function Mmap(s: State, length: nat, flags: nat, grant: Grant): (State, Option<nat>) {
    var bytes := PageUp(length);
    if length == 0 || bytes == 0 then (s, None)
    else
      var next := PageUp(s.mapNext);
      match FindBase(s.pages, if next < MMAP_BASE then MMAP_BASE else next, bytes)
      case None => (s, None)
      case Some(base) => MapAt(s, base, bytes, flags, grant)
  }

  predicate IsMapping(r: Rec, virt: nat, bytes: nat) {
    r.raw != r.user && r.fromPhys && r.user == virt && r.size == bytes
  }

  function FindMapping(records: seq<Rec>, virt: nat, bytes: nat, i: nat): (r: nat)
    requires i <= |records|
    ensures i <= r <= |records|
    ensures r < |records| ==> IsMapping(records[r], virt, bytes)
    ensures forall j :: i <= j < r ==> !IsMapping(records[j], virt, bytes)
    decreases |records| - i
  {
    if i == |records| || IsMapping(records[i], virt, bytes) then i else FindMapping(records, virt, bytes, i + 1)
  }

  /** The munmap system call. */
  function Munmap(s: State, virt: nat, length: nat): (State, bool) {
    var i := FindMapping(s.records, virt, PageUp(length), 0);
    if length == 0 || i == |s.records| then (s, false)
    else
      var r := s.records[i];
      (UnmapAndFree(s.(records := Without(s.records, i)), virt, r.size, r.raw), true)
  }

  // ----------------------------------------------------------------- mprotect

  /** protect_process_mapping on n pages: stops at the first page that is not mapped. */
  function ProtectPages(pages: map<nat, Frame>, p: nat, n: nat, flags: nat): (map<nat, Frame>, bool)
    decreases n
  {
    if n == 0 then (pages, true)
    else if p !in pages then (pages, false)
    else ProtectPages(pages[p := Frame(pages[p].phys / 4096 * 4096, flags)], p + 1, n - 1, flags)
  }

  function Protect(s: State, virt: nat, size: nat, flags: nat): (State, bool) {
    if size == 0 then (s, false)
    else
      var (pages, ok) := ProtectPages(s.pages, virt / 4096, PageUp(virt % 4096 + size) / 4096, flags);
      (s.(pages := pages), ok)
  }
}
