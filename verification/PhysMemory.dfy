/**
 The first-fit physical page allocator as functions on its region list. The list nodes come
 from a pool of 512; a node is in use exactly while its region is on the list.
 */
module PhysMemory {
  import opened Machine
  import opened Alignment
  import opened Regions
  import opened Wrappers

  const POOL: nat := 512

  datatype MemoryType =
    | Reserved | LoaderCode | LoaderData | BootServicesCode | BootServicesData
    | RuntimeServicesCode | RuntimeServicesData | Conventional | Unusable | AcpiReclaimable
    | Nvs | MemoryMappedIo | MemoryMappedIoPortSpace | PalCode | Persistent

  datatype MapEntry = MapEntry(start: nat, pages: nat, kind: MemoryType)

  /** Counters are 64-bit words. */
  datatype Phys = Phys(regions: seq<Region>, totalPages: nat, usedPages: nat, freePages: nat)

  function Spare(rs: seq<Region>): int { POOL - |rs| }

  // -------------------------------------------------------------------- init

  predicate IsFreeType(kind: MemoryType) {
    kind == Conventional || kind == BootServicesCode || kind == BootServicesData
  }

  /** The region an entry contributes; page 0 is left out so that 0 can mean failure. */
  function EntryRegion(e: MapEntry): Option<Region> {
    if !IsFreeType(e.kind) || e.pages == 0 then None
    else if e.start > 0 then Some(Region(e.start, e.pages * PAGE, false))
    else if e.pages * PAGE <= PAGE then None
    else Some(Region(PAGE, e.pages * PAGE - PAGE, false))
  }

  function LoadEntry(p: Phys, e: MapEntry): Phys {
    var q := p.(totalPages := Wrap(p.totalPages + e.pages));
    match EntryRegion(e)
    case None => q
    case Some(r) => q.(regions := p.regions + [r], freePages := Wrap(p.freePages + e.pages))
  }

  predicate WantsNode(e: MapEntry) { IsFreeType(e.kind) && e.pages > 0 }

  /** The entries in turn; loading stops at the first free entry that finds no node. */
  function Load(p: Phys, entries: seq<MapEntry>): Phys
    decreases |entries|
  {
    if entries == [] then p
    else if WantsNode(entries[0]) && Spare(p.regions) <= 0
    then p.(totalPages := Wrap(p.totalPages + entries[0].pages))
    else Load(LoadEntry(p, entries[0]), entries[1..])
  }

  const NO_MEMORY := Phys([], 0, 0, 0)

  /** What UEFI reports: page-aligned entries, ascending, disjoint, within the address width. */
  ghost predicate SaneMap(entries: seq<MapEntry>) {
    && (forall i :: 0 <= i < |entries| ==>
          entries[i].start % PAGE == 0 && entries[i].start + entries[i].pages * PAGE <= ADDRESS_LIMIT)
    && (forall i, j :: 0 <= i < j < |entries| ==> entries[i].start + entries[i].pages * PAGE <= entries[j].start)
  }

  // ---------------------------------------------------------------- allocate

  function Bytes(pages: nat): nat { pages * PAGE }

  /** Would allocate_pages take this region, with this many spare nodes? */
  predicate Fits(r: Region, req: nat, alignment: nat, ceiling: nat, spare: int)
    requires alignment > 0
  {
    && !r.used
    && var a := AlignUp(r.start, alignment);
       a + req <= r.End() && (ceiling == 0 || a + req <= ceiling) && (a == r.start || spare > 0)
  }

  function FirstFit(rs: seq<Region>, i: nat, req: nat, alignment: nat, ceiling: nat): (k: nat)
    requires alignment > 0 && i <= |rs|
    ensures i <= k <= |rs|
    ensures k < |rs| ==> Fits(rs[k], req, alignment, ceiling, Spare(rs))
    ensures forall j :: i <= j < k ==> !Fits(rs[j], req, alignment, ceiling, Spare(rs))
    decreases |rs| - i
  {
    if i == |rs| || Fits(rs[i], req, alignment, ceiling, Spare(rs)) then i
    else FirstFit(rs, i + 1, req, alignment, ceiling)
  }

  /** The regions that replace the chosen one. Without a node for the tail, a front-aligned
      allocation absorbs it, and any other loses it. */
  function Carve(r: Region, a: nat, req: nat, spare: int): (mid: seq<Region>)
    requires r.start <= a && a + req <= r.End() && req > 0
    ensures 1 <= |mid| <= 3
  {
    var pre, post := a - r.start, r.End() - (a + req);
    if pre == 0 then
      if post > 0 && spare > 0 then [Region(a, req, true), Region(a + req, post, false)]
      else [r.(used := true)]
    else
      [Region(r.start, pre, false), Region(a, req, true)]
      + if post > 0 && spare > 1 then [Region(a + req, post, false)] else []
  }

  /** New state and result; 0 is failure. */
  function Alloc(p: Phys, pages: nat, alignment: nat, ceiling: nat): (Phys, nat)
    requires alignment > 0
  {
    if pages == 0 then (p, 0)
    else
      var k := FirstFit(p.regions, 0, Bytes(pages), alignment, ceiling);
      if k == |p.regions| then (p, 0)
      else
        var r := p.regions[k];
        var a := AlignUp(r.start, alignment);
        (p.(regions := Splice(p.regions, k, k + 1, Carve(r, a, Bytes(pages), Spare(p.regions))),
            usedPages := Wrap(p.usedPages + pages), freePages := Wrap(p.freePages - pages)), a)
  }

  // -------------------------------------------------------------------- free

  function FindUsed(rs: seq<Region>, i: nat, addr: nat): (k: nat)
    requires i <= |rs|
    ensures i <= k <= |rs|
    ensures k < |rs| ==> rs[k].start == addr && rs[k].used
    ensures forall j :: i <= j < k ==> !(rs[j].start == addr && rs[j].used)
    decreases |rs| - i
  {
    if i == |rs| || (rs[i].start == addr && rs[i].used) then i else FindUsed(rs, i + 1, addr)
  }

  /** Is region k free and does region k + 1 start where it ends? */
  predicate Touches(rs: seq<Region>, k: nat)
    requires k + 1 < |rs|
  {
    rs[k].End() == rs[k + 1].start
  }

  predicate MergesNext(rs: seq<Region>, k: nat)
    requires k < |rs|
  {
    k + 1 < |rs| && !rs[k + 1].used && Touches(rs, k)
  }

  predicate MergesPrev(rs: seq<Region>, k: nat)
    requires k < |rs|
  {
    k > 0 && !rs[k - 1].used && Touches(rs, k - 1)
  }

  function Release(rs: seq<Region>, k: nat): seq<Region>
    requires k < |rs|
  {
    var lo := if MergesPrev(rs, k) then k - 1 else k;
    var hi := if MergesNext(rs, k) then k + 2 else k + 1;
    var size := rs[k].size + (if lo < k then rs[k - 1].size else 0) + (if hi > k + 1 then rs[k + 1].size else 0);
    Splice(rs, lo, hi, [Region(rs[lo].start, size, false)])
  }

  function Free(p: Phys, addr: nat, pages: nat): Phys {
    if addr == 0 || pages == 0 then p
    else
      var k := FindUsed(p.regions, 0, addr);
      if k == |p.regions| then p
      else p.(regions := Release(p.regions, k),
              usedPages := Wrap(p.usedPages - pages), freePages := Wrap(p.freePages + pages))
  }

  // -------------------------------------------------------------- invariants

  /** Page-aligned, off page 0 and within the address width. */
  ghost predicate Sound(r: Region) {
    r.start % PAGE == 0 && r.size % PAGE == 0 && r.start > 0 && r.End() <= ADDRESS_LIMIT
  }

  /** The list is ordered, sound and within the pool, and covers nothing that was not free
      at boot. */
  ghost predicate Inv(p: Phys, boot: seq<Region>) {
    && Ordered(p.regions)
    && |p.regions| <= POOL
    && (forall r :: r in p.regions ==> Sound(r))
    && (forall x :: Covered(p.regions, x) ==> Covered(boot, x))
    && p.usedPages < U64 && p.freePages < U64
  }
}
