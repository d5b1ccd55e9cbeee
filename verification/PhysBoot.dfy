/** Which memory the physical allocator hands out, in terms of the firmware's map. */
module PhysBoot {
  import opened Machine
  import opened Alignment
  import opened Regions
  import opened PhysMemory
  import opened PhysMemoryProofs

  /** A byte of the kind of memory that is the kernel's after boot services end, page 0 excepted. */
  predicate Usable(e: MapEntry, x: int) {
    && (e.kind.Conventional? || e.kind.BootServicesCode? || e.kind.BootServicesData?)
    && 4096 <= x && e.start <= x < e.start + e.pages * 4096
  }

  ghost predicate InMap(entries: seq<MapEntry>, x: int) {
    exists i :: 0 <= i < |entries| && Usable(entries[i], x)
  }

  lemma InMapSplit(entries: seq<MapEntry>, x: int)
    requires entries != []
    ensures InMap(entries, x) <==> Usable(entries[0], x) || InMap(entries[1..], x)
  {
    if InMap(entries[1..], x) {
      var i :| 0 <= i < |entries[1..]| && Usable(entries[1..][i], x);
      assert Usable(entries[i + 1], x);
    }
    if InMap(entries, x) && !Usable(entries[0], x) {
      var i :| 0 <= i < |entries| && Usable(entries[i], x);
      assert Usable(entries[1..][i - 1], x);
    }
  }

  /** One entry adds exactly its usable bytes. */
  lemma LoadEntryCovers(p: Phys, e: MapEntry, x: int)
    requires e.start % PAGE == 0
    ensures Covered(LoadEntry(p, e).regions, x) <==> Covered(p.regions, x) || Usable(e, x)
  {
    hide Wrap;
    match EntryRegion(e)
    case None => assert !Usable(e, x);
    case Some(r) =>
      CoveredConcat(p.regions, [r], x);
      assert Covered([r], x) <==> In(r, x) by { if In(r, x) { assert In([r][0], x); } }
  }

  /** Entries that need a list node. */
  function Wanted(entries: seq<MapEntry>): nat
    decreases |entries|
  {
    if entries == [] then 0 else (if WantsNode(entries[0]) then 1 else 0) + Wanted(entries[1..])
  }

  lemma SaneTail(entries: seq<MapEntry>)
    requires SaneMap(entries) && entries != []
    ensures SaneMap(entries[1..]) && entries[0].start % PAGE == 0
  {
  }

  lemma {:induction false} LoadCovers(p: Phys, entries: seq<MapEntry>, x: int)
    requires SaneMap(entries)
    ensures Covered(Load(p, entries).regions, x) ==> Covered(p.regions, x) || InMap(entries, x)
    ensures |p.regions| + Wanted(entries) <= POOL ==>
              (Covered(Load(p, entries).regions, x) <==> Covered(p.regions, x) || InMap(entries, x))
    decreases |entries|
  {
    hide Covered, SaneMap, Usable, Wrap, InMap;
    if entries == [] {
      NothingInMap(entries, x);
    } else {
      SaneTail(entries);
      InMapSplit(entries, x);
      if !(WantsNode(entries[0]) && Spare(p.regions) <= 0) {
        LoadEntryCovers(p, entries[0], x);
        OneMore(p, entries[0]);
        LoadCovers(LoadEntry(p, entries[0]), entries[1..], x);
      }
    }
  }

  lemma NothingInMap(entries: seq<MapEntry>, x: int)
    requires entries == []
    ensures !InMap(entries, x)
  {
  }

  lemma OneMore(p: Phys, e: MapEntry)
    ensures |LoadEntry(p, e).regions| <= |p.regions| + if WantsNode(e) then 1 else 0
  {
  }

  /** After boot the list covers only usable memory, and all of it unless there are more such entries than nodes. */
  lemma BootCovers(entries: seq<MapEntry>, x: int)
    requires SaneMap(entries)
    ensures Covered(Load(NO_MEMORY, entries).regions, x) ==> InMap(entries, x)
    ensures Wanted(entries) <= POOL ==> (Covered(Load(NO_MEMORY, entries).regions, x) <==> InMap(entries, x))
  {
    LoadCovers(NO_MEMORY, entries, x);
  }

  /** From boot, over every run: every byte handed out is of a usable entry of the map, and held once. */
  lemma LiveIsUsable(entries: seq<MapEntry>, ops: seq<Op>, a: nat, b: nat, x: int)
    requires SaneMap(entries) && forall op :: op in ops ==> ValidOp(op)
    ensures var s := Run(System(Load(NO_MEMORY, entries), map[]), ops);
            a in s.live && a <= x < a + s.live[a] ==>
              && InMap(entries, x) && x >= 4096
              && (b in s.live && b <= x < b + s.live[b] ==> a == b)
  {
    EveryRunIsSafe(entries, ops, a, b, x);
    BootCovers(entries, x);
  }

  function PagesIn(entries: seq<MapEntry>): nat
    decreases |entries|
  {
    if entries == [] then 0 else entries[0].pages + PagesIn(entries[1..])
  }

  lemma {:induction false} LoadTotal(p: Phys, entries: seq<MapEntry>)
    requires |p.regions| + Wanted(entries) <= POOL && p.totalPages + PagesIn(entries) < U64
    ensures Load(p, entries).totalPages == p.totalPages + PagesIn(entries) && Load(p, entries).usedPages == p.usedPages
    decreases |entries|
  {
    if entries != [] {
      OneMore(p, entries[0]);
      LoadTotal(LoadEntry(p, entries[0]), entries[1..]);
    }
  }

  /** total_pages_ counts all pages of the map, whatever their kind, while list nodes last. */
  lemma BootTotal(entries: seq<MapEntry>)
    requires Wanted(entries) <= POOL && PagesIn(entries) < U64
    ensures Load(NO_MEMORY, entries).totalPages == PagesIn(entries) && Load(NO_MEMORY, entries).usedPages == 0
  {
    LoadTotal(NO_MEMORY, entries);
  }

  // --------------------------------------------------------- when it succeeds

  /** Some aligned stretch of a free region holds the request under the ceiling; off its start only with a
      spare node. */
  ghost predicate Room(r: Region, bytes: nat, alignment: nat, ceiling: nat, spare: int)
    requires alignment > 0
  {
    !r.used && exists a: nat ::
      && Divides(alignment, a) && r.start <= a && a + bytes <= r.start + r.size
      && (ceiling == 0 || a + bytes <= ceiling) && (a == r.start || spare > 0)
  }

  lemma FitsIsRoom(r: Region, bytes: nat, alignment: nat, ceiling: nat, spare: int)
    requires alignment > 0
    ensures Fits(r, bytes, alignment, ceiling, spare) <==> Room(r, bytes, alignment, ceiling, spare)
  {
    hide AlignUp;
    var up := AlignUp(r.start, alignment);
    if Room(r, bytes, alignment, ceiling, spare) {
      var a: nat :| && Divides(alignment, a) && r.start <= a && a + bytes <= r.start + r.size
                    && (ceiling == 0 || a + bytes <= ceiling) && (a == r.start || spare > 0);
      LeastMultiple(r.start, alignment, a);
    }
  }

  /** AlignUp is the least multiple that is not below. */
  lemma LeastMultiple(v: nat, alignment: nat, a: nat)
    requires alignment > 0 && Divides(alignment, a) && v <= a
    ensures AlignUp(v, alignment) <= a
  {
    hide AlignUp;
    var up := AlignUp(v, alignment);
    if a < up {
      DividesSub(alignment, up, a);
    }
  }

  /** allocate_pages succeeds exactly when some free region has room. */
  lemma AllocExactly(p: Phys, pages: nat, alignment: nat, ceiling: nat, boot: seq<Region>)
    requires Inv(p, boot) && PowerOfTwo(alignment)
    ensures Alloc(p, pages, alignment, ceiling).1 != 0 <==>
              && pages > 0
              && exists r :: r in p.regions && Room(r, pages * 4096, alignment, ceiling, 512 - |p.regions|)
  {
    hide Room, Fits, Inv, Alloc;
    AllocResult(p, pages, alignment, ceiling, boot);
    forall r | r in p.regions
      ensures Fits(r, Bytes(pages), alignment, ceiling, Spare(p.regions)) <==>
                Room(r, pages * 4096, alignment, ceiling, 512 - |p.regions|)
    {
      FitsIsRoom(r, Bytes(pages), alignment, ceiling, Spare(p.regions));
    }
  }
}
