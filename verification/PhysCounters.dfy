/**
 The free-page counter of the physical allocator against the free memory on its list: when the
 two agree, and which calls drive them apart.
 */
module PhysCounters {
  import opened Machine
  import opened Alignment
  import opened Regions
  import opened Wrappers
  import opened PhysMemory
  import opened PhysMemoryProofs

  function FreeBytes(rs: seq<Region>): nat {
    if rs == [] then 0 else (if rs[0].used then 0 else rs[0].size) + FreeBytes(rs[1..])
  }

  /** How far the counter is ahead of the free pages on the list, as a 64-bit word. */
  function Drift(p: Phys): nat { Wrap(p.freePages - FreeBytes(p.regions) / 4096) }

  predicate CounterRight(p: Phys) { p.freePages * 4096 == FreeBytes(p.regions) }

  // --------------------------------------------------------------- free bytes

  lemma {:induction false} FreeBytesConcat(a: seq<Region>, b: seq<Region>)
    ensures FreeBytes(a + b) == FreeBytes(a) + FreeBytes(b)
  {
    if a == [] {
      assert a + b == b;
    } else {
      assert (a + b)[1..] == a[1..] + b;
      FreeBytesConcat(a[1..], b);
    }
  }

  lemma FreeBytesSplice(rs: seq<Region>, i: nat, j: nat, mid: seq<Region>)
    requires i <= j <= |rs|
    ensures FreeBytes(Splice(rs, i, j, mid)) == FreeBytes(rs) - FreeBytes(rs[i..j]) + FreeBytes(mid)
  {
    FreeBytesConcat(rs[..i] + mid, rs[j..]);
    FreeBytesConcat(rs[..i], mid);
    assert rs == rs[..i] + rs[i..j] + rs[j..];
    FreeBytesConcat(rs[..i] + rs[i..j], rs[j..]);
    FreeBytesConcat(rs[..i], rs[i..j]);
  }

  lemma FreeBytesOne(r: Region)
    ensures FreeBytes([r]) == if r.used then 0 else r.size
  {
    assert [r][1..] == [];
  }

  lemma {:induction false} FreeBytesBound(rs: seq<Region>, limit: nat)
    requires Ordered(rs) && forall i :: 0 <= i < |rs| ==> rs[i].End() <= limit
    ensures FreeBytes(rs) <= limit && (rs != [] ==> rs[0].start + FreeBytes(rs) <= limit)
  {
    if rs != [] { FreeBytesBound(rs[1..], limit); }
  }

  lemma {:induction false} FreeBytesPages(rs: seq<Region>)
    requires forall r :: r in rs ==> r.size % 4096 == 0
    ensures FreeBytes(rs) % 4096 == 0
  {
    if rs != [] {
      assert rs[0].size % 4096 == 0;
      FreeBytesPages(rs[1..]);
      SumOfPages(if rs[0].used then 0 else rs[0].size, FreeBytes(rs[1..]));
    }
  }

  lemma SumOfPages(a: nat, b: nat)
    requires a % 4096 == 0 && b % 4096 == 0
    ensures (a + b) % 4096 == 0 && (a + b) / 4096 == a / 4096 + b / 4096
  {
  }

  /** On a good list no drift means that the counter is right. */
  lemma RightIffNoDrift(p: Phys, boot: seq<Region>)
    requires Inv(p, boot)
    ensures CounterRight(p) <==> Drift(p) == 0
  {
    assert forall i :: 0 <= i < |p.regions| ==> p.regions[i] in p.regions && Sound(p.regions[i]);
    FreeBytesBound(p.regions, ADDRESS_LIMIT);
    FreeBytesPages(p.regions);
    SmallWord(p.freePages, FreeBytes(p.regions) / 4096);
  }

  lemma SmallWord(a: nat, b: nat)
    requires a < U64 && b < U64
    ensures Wrap(a - b) == 0 <==> a == b
  {
  }

  /** A change by n is no change exactly when n is zero as a 64-bit word. */
  lemma DriftStep(free: int, bytes: nat, free': int, bytes': nat, n: int)
    requires free' == Wrap(free + n) && bytes % 4096 == 0 && bytes' % 4096 == 0
    ensures Wrap(free' - bytes' / 4096) == Wrap(free - bytes / 4096 + (n - (bytes' / 4096 - bytes / 4096)))
  {
    var q := (free + n) / U64;
    ModMinus(free - bytes / 4096 + (n - (bytes' / 4096 - bytes / 4096)), q);
  }

  lemma ModMinus(x: int, q: int)
    ensures Wrap(x - q * U64) == Wrap(x)
  {
    var d, r := x / U64, Wrap(x);
    assert x - q * U64 == (d - q) * U64 + r;
    RemainderIs(d - q, r);
  }

  lemma RemainderIs(d: int, r: int)
    requires 0 <= r < U64
    ensures Wrap(d * U64 + r) == r
  {
  }

  lemma ShiftChanges(x: int, m: int)
    requires 0 - U64 < m < U64
    ensures Wrap(x + m) == Wrap(x) <==> m == 0
  {
    var d, r := x / U64, Wrap(x);
    assert x == d * U64 + r;
    if m != 0 {
      if 0 <= r + m < U64 { RemainderIs(d, r + m); }
      else if r + m < 0 { RemainderIs(d - 1, r + m + U64); assert x + m == (d - 1) * U64 + (r + m + U64); }
      else { RemainderIs(d + 1, r + m - U64); assert x + m == (d + 1) * U64 + (r + m - U64); }
    }
  }

  // --------------------------------------------------------------------- boot

  /** A free entry that starts at page 0 and has more than that page. */
  predicate AtZero(e: MapEntry) { IsFreeType(e.kind) && e.start == 0 && e.pages > 1 }

  ghost predicate HasZero(entries: seq<MapEntry>) { exists e :: e in entries && AtZero(e) }

  lemma LoadEntryDrift(p: Phys, e: MapEntry)
    requires FreeBytes(p.regions) % 4096 == 0
    ensures FreeBytes(LoadEntry(p, e).regions) % 4096 == 0
    ensures Drift(LoadEntry(p, e)) == Wrap(Drift(p) + (if AtZero(e) then 1 else 0))
  {
    hide Wrap, FreeBytes;
    var q := LoadEntry(p, e);
    match EntryRegion(e) {
      case None =>
        DriftIsWord(p);
      case Some(r) =>
        FreeBytesConcat(p.regions, [r]);
        FreeBytesOne(r);
        LoadedPages(e, r);
        SumOfPages(FreeBytes(p.regions), r.size);
        DriftStep(p.freePages, FreeBytes(p.regions), q.freePages, FreeBytes(q.regions), e.pages);
        DriftAgain(p.freePages - FreeBytes(p.regions) / 4096, if AtZero(e) then 1 else 0);
    }
  }

  lemma LoadedPages(e: MapEntry, r: Region)
    requires EntryRegion(e) == Some(r)
    ensures r.size % 4096 == 0 && !r.used && r.size / 4096 == e.pages - (if AtZero(e) then 1 else 0)
  {
  }

  lemma DriftAgain(x: int, m: int)
    ensures Wrap(Wrap(x) + m) == Wrap(x + m)
  {
    var d := x / U64;
    assert Wrap(x) + m == x + m - d * U64;
    ModMinus(x + m, d);
  }

  /** Loading moves the counter ahead by one exactly for an entry at page 0. */
  lemma {:induction false} LoadDrift(p: Phys, entries: seq<MapEntry>)
    requires SaneMap(entries) && FreeBytes(p.regions) % 4096 == 0
    requires p.regions != [] ==> forall e :: e in entries ==> e.start > 0
    ensures Drift(Load(p, entries)) == Wrap(Drift(p) + (if HasZero(entries) then 1 else 0))
    decreases |entries|
  {
    hide Drift, Wrap, LoadEntry, SaneMap, HasZero, AtZero, EntryRegion;
    DriftIsWord(p);
    if entries == [] {
      NoZeroIn(entries);
    } else if WantsNode(entries[0]) && Spare(p.regions) <= 0 {
      StopDrift(p, entries[0].pages);
      NoZeroBehind(p, entries);
    } else {
      var e, q, rest := entries[0], LoadEntry(p, entries[0]), entries[1..];
      LoadEntryDrift(p, e);
      LaterStart(entries);
      LoadedStart(p, entries);
      LoadDrift(q, rest);
      HasZeroSplit(entries);
      DriftAgain(Drift(p) + (if AtZero(e) then 1 else 0), if HasZero(rest) then 1 else 0);
    }
  }

  lemma NoZeroIn(entries: seq<MapEntry>)
    requires entries == []
    ensures !HasZero(entries)
  {
  }

  lemma HasZeroSplit(entries: seq<MapEntry>)
    requires SaneMap(entries) && entries != []
    ensures HasZero(entries) <==> AtZero(entries[0]) || HasZero(entries[1..])
    ensures AtZero(entries[0]) ==> !HasZero(entries[1..])
  {
    LaterStart(entries);
    var e, rest := entries[0], entries[1..];
    assert entries == [e] + rest;
    if HasZero(rest) { var z :| z in rest && AtZero(z); assert z in entries; }
    if AtZero(e) { assert e in entries; }
  }

  /** Loading only stops once there are regions, and then nothing starts at page 0. */
  lemma NoZeroBehind(p: Phys, entries: seq<MapEntry>)
    requires Spare(p.regions) <= 0 && (p.regions != [] ==> forall e :: e in entries ==> e.start > 0)
    ensures !HasZero(entries)
  {
  }

  /** Once an entry is on the list, every later one starts higher. */
  lemma LoadedStart(p: Phys, entries: seq<MapEntry>)
    requires SaneMap(entries) && entries != []
    requires p.regions != [] ==> forall e :: e in entries ==> e.start > 0
    ensures LoadEntry(p, entries[0]).regions != [] ==> forall e :: e in entries[1..] ==> e.start > 0
  {
    hide Wrap;
    LaterStart(entries);
  }

  lemma DriftIsWord(p: Phys)
    ensures Drift(p) < U64 && Wrap(Drift(p)) == Drift(p) && Wrap(Drift(p) + 0) == Drift(p)
  {
  }

  lemma StopDrift(p: Phys, n: nat)
    ensures Drift(p.(totalPages := Wrap(p.totalPages + n))) == Drift(p)
  {
  }

  /** Behind an entry with pages everything starts higher. */
  lemma LaterStart(entries: seq<MapEntry>)
    requires SaneMap(entries) && entries != []
    ensures SaneMap(entries[1..])
    ensures entries[0].pages > 0 ==> forall e :: e in entries[1..] ==> e.start > 0
  {
    forall e | e in entries[1..] ensures entries[0].start + entries[0].pages * PAGE <= e.start {
      var j :| 0 <= j < |entries[1..]| && entries[1..][j] == e;
      assert entries[j + 1] == e;
    }
  }

  /** After boot the counter is right if and only if no free entry of more than one page starts at page 0. */
  lemma CounterRightAfterBoot(entries: seq<MapEntry>)
    requires SaneMap(entries)
    ensures CounterRight(Load(NO_MEMORY, entries)) <==> !HasZero(entries)
  {
    hide Drift;
    InitEstablishes(entries);
    var p := Load(NO_MEMORY, entries);
    RightIffNoDrift(p, p.regions);
    LoadDrift(NO_MEMORY, entries);
    RightIffNoDrift(NO_MEMORY, []);
  }

  /** Two pages at address 0: the counter says two, the list has one. */
  lemma PageZeroWitness()
    ensures var p := Load(NO_MEMORY, [MapEntry(0, 2, Conventional)]);
            p.freePages == 2 && FreeBytes(p.regions) == 4096
  {
    var e := MapEntry(0, 2, Conventional);
    assert [e][1..] == [];
    var q := LoadEntry(NO_MEMORY, e);
    assert Load(q, []) == q;
    FreeBytesOne(q.regions[0]);
  }

  // --------------------------------------------------------- allocate and free

  /** Bytes behind the request for which no list node was left: handed out with it, or lost. */
  function TailRefused(r: Region, a: nat, req: nat, spare: int): nat
    requires r.start <= a && a + req <= r.End()
  {
    var post := r.End() - (a + req);
    if (if a == r.start then spare > 0 else spare > 1) then 0 else post
  }

  lemma CarveFreeBytes(r: Region, a: nat, req: nat, spare: int)
    requires !r.used && r.start <= a && a + req <= r.End() && req > 0
    ensures FreeBytes(Carve(r, a, req, spare)) == r.size - req - TailRefused(r, a, req, spare)
  {
    var mid := Carve(r, a, req, spare);
    assert FreeBytes([]) == 0;
    FreeBytesOne(mid[|mid| - 1]);
    if |mid| >= 2 { assert mid[1..] == [mid[1]] + mid[2..]; FreeBytesOne(mid[1]); }
    if |mid| == 3 { assert mid[1..][1..] == [mid[2]]; FreeBytesOne(mid[2]); }
  }

  /** The pages of the tail that the call refused to keep free. */
  function AllocLoses(p: Phys, pages: nat, alignment: nat, ceiling: nat): nat
    requires alignment > 0
  {
    var k := FirstFit(p.regions, 0, Bytes(pages), alignment, ceiling);
    if pages == 0 || k == |p.regions| then 0
    else TailRefused(p.regions[k], AlignUp(p.regions[k].start, alignment), Bytes(pages), Spare(p.regions))
  }

  lemma AllocFreeBytes(p: Phys, pages: nat, alignment: nat, ceiling: nat)
    requires PowerOfTwo(alignment)
    ensures var (q, a) := Alloc(p, pages, alignment, ceiling);
            var k := FirstFit(p.regions, 0, Bytes(pages), alignment, ceiling);
            pages > 0 && k < |p.regions| ==>
              FreeBytes(q.regions) == FreeBytes(p.regions) - Bytes(pages) - AllocLoses(p, pages, alignment, ceiling)
  {
    hide Wrap, Carve, Splice, FreeBytes, AlignUp, Divides;
    var rs, req := p.regions, Bytes(pages);
    var k := FirstFit(rs, 0, req, alignment, ceiling);
    if pages > 0 && k < |rs| {
      var r := rs[k];
      var a := AlignUp(r.start, alignment);
      CarveFreeBytes(r, a, req, Spare(rs));
      FreeBytesSplice(rs, k, k + 1, Carve(r, a, req, Spare(rs)));
      assert rs[k..k + 1] == [r];
      FreeBytesOne(r);
    }
  }

  lemma {:induction false} PagesOnList(p: Phys, boot: seq<Region>)
    requires Inv(p, boot)
    ensures FreeBytes(p.regions) % 4096 == 0
  {
    assert forall r :: r in p.regions ==> Sound(r);
    FreeBytesPages(p.regions);
  }

  /** An allocation moves the counter ahead by exactly the pages of a refused tail. */
  lemma AllocDrift(p: Phys, pages: nat, alignment: nat, ceiling: nat, boot: seq<Region>)
    requires Inv(p, boot) && PowerOfTwo(alignment)
    ensures AllocLoses(p, pages, alignment, ceiling) % 4096 == 0
            && AllocLoses(p, pages, alignment, ceiling) <= ADDRESS_LIMIT
    ensures Drift(Alloc(p, pages, alignment, ceiling).0)
         == Wrap(Drift(p) + AllocLoses(p, pages, alignment, ceiling) / 4096)
  {
    hide Splice, Carve, FreeBytes, Drift, Wrap, AlignUp, Divides;
    var (q, a) := Alloc(p, pages, alignment, ceiling);
    var k := FirstFit(p.regions, 0, Bytes(pages), alignment, ceiling);
    DriftIsWord(p);
    if pages > 0 && k < |p.regions| {
      AllocFreeBytes(p, pages, alignment, ceiling);
      AllocKeepsInv(p, pages, alignment, ceiling, boot);
      PagesOnList(p, boot);
      PagesOnList(q, boot);
      assert p.regions[k] in p.regions && Sound(p.regions[k]);
      DriftBy(p, q, pages, AllocLoses(p, pages, alignment, ceiling));
    }
  }

  lemma DriftBy(p: Phys, q: Phys, pages: nat, lost: nat)
    requires q.freePages == Wrap(p.freePages - pages)
    requires FreeBytes(q.regions) == FreeBytes(p.regions) - pages * 4096 - lost
    requires FreeBytes(p.regions) % 4096 == 0 && FreeBytes(q.regions) % 4096 == 0
    ensures lost % 4096 == 0 && Drift(q) == Wrap(Drift(p) + lost / 4096)
  {
    hide FreeBytes;
    LostPages(FreeBytes(p.regions), FreeBytes(q.regions), pages, lost);
    DriftStep(p.freePages, FreeBytes(p.regions), q.freePages, FreeBytes(q.regions), 0 - pages);
    DriftAgain(p.freePages - FreeBytes(p.regions) / 4096, lost / 4096);
  }

  lemma LostPages(bytes: nat, bytes': int, pages: nat, lost: nat)
    requires bytes % 4096 == 0 && bytes' % 4096 == 0 && bytes' == bytes - pages * 4096 - lost
    ensures lost % 4096 == 0 && 0 - pages - (bytes' / 4096 - bytes / 4096) == lost / 4096
  {
  }

  /** The region a free releases, and how its size differs from the count given. */
  function FreeDiffers(p: Phys, addr: nat, pages: nat): int {
    var k := FindUsed(p.regions, 0, addr);
    if addr == 0 || pages == 0 || k == |p.regions| then 0 else pages - p.regions[k].size / 4096
  }

  lemma ReleaseFreeBytes(rs: seq<Region>, k: nat)
    requires k < |rs| && rs[k].used
    ensures FreeBytes(Release(rs, k)) == FreeBytes(rs) + rs[k].size
  {
    var lo := if MergesPrev(rs, k) then k - 1 else k;
    var hi := if MergesNext(rs, k) then k + 2 else k + 1;
    var one := Release(rs, k)[lo];
    FreeBytesSplice(rs, lo, hi, [one]);
    FreeBytesOne(one);
    StretchFreeBytes(rs, k, lo, hi);
  }

  lemma StretchFreeBytes(rs: seq<Region>, k: nat, lo: nat, hi: nat)
    requires k < |rs| && rs[k].used && (lo == k || (lo + 1 == k && !rs[lo].used))
             && (hi == k + 1 || (hi == k + 2 <= |rs| && !rs[k + 1].used))
    ensures FreeBytes(rs[lo..hi]) == (if lo < k then rs[lo].size else 0) + (if hi > k + 1 then rs[k + 1].size else 0)
  {
    var a, b := rs[lo..k], rs[k + 1..hi];
    assert rs[lo..hi] == a + ([rs[k]] + b);
    FreeBytesConcat(a, [rs[k]] + b);
    FreeBytesConcat([rs[k]], b);
    FreeBytesOne(rs[k]);
    if lo < k { assert a == [rs[lo]]; FreeBytesOne(rs[lo]); } else { assert a == []; }
    if hi > k + 1 { assert b == [rs[k + 1]]; FreeBytesOne(rs[k + 1]); } else { assert b == []; }
  }

  /** A free moves the counter by what its count differs from the region's size. */
  lemma FreeDrift(p: Phys, addr: nat, pages: nat, boot: seq<Region>)
    requires Inv(p, boot)
    ensures Drift(Free(p, addr, pages)) == Wrap(Drift(p) + FreeDiffers(p, addr, pages))
  {
    hide Release, Wrap, FreeBytes, Covered, Ordered;
    var q, k := Free(p, addr, pages), FindUsed(p.regions, 0, addr);
    DriftIsWord(p);
    if addr != 0 && pages != 0 && k < |p.regions| {
      ReleaseFreeBytes(p.regions, k);
      FreeKeepsInv(p, addr, pages, boot);
      PagesOnList(p, boot);
      PagesOnList(q, boot);
      assert p.regions[k] in p.regions && Sound(p.regions[k]);
      DriftStep(p.freePages, FreeBytes(p.regions), q.freePages, FreeBytes(q.regions), pages);
      DriftAgain(p.freePages - FreeBytes(p.regions) / 4096, FreeDiffers(p, addr, pages));
    }
  }

  // ------------------------------------------------------------ steps and runs

  /** An allocation without a node for the tail, or a free with another count than the block's. */
  ghost predicate Drives(p: Phys, op: Op)
    requires ValidOp(op)
  {
    match op
    case AllocPages(n, alignment, ceiling) => AllocLoses(p, n, alignment, ceiling) > 0
    case FreePages(addr, n) => FreeDiffers(p, addr, n) != 0
  }

  /** Page counts are 32-bit words. */
  predicate SmallCount(op: Op) { op.FreePages? ==> op.count < 0x1_0000_0000 }

  lemma AllocStepDrift(p: Phys, n: nat, alignment: nat, ceiling: nat, boot: seq<Region>)
    requires Inv(p, boot) && PowerOfTwo(alignment)
    ensures Drift(Alloc(p, n, alignment, ceiling).0) != Drift(p) <==> AllocLoses(p, n, alignment, ceiling) > 0
  {
    hide Drift, Alloc, AllocLoses, Inv;
    DriftIsWord(p);
    AllocDrift(p, n, alignment, ceiling, boot);
    ShiftChanges(Drift(p), AllocLoses(p, n, alignment, ceiling) / 4096);
  }

  lemma FreeStepDrift(p: Phys, addr: nat, n: nat, boot: seq<Region>)
    requires Inv(p, boot) && n < 0x1_0000_0000
    ensures Drift(Free(p, addr, n)) != Drift(p) <==> FreeDiffers(p, addr, n) != 0
  {
    hide Drift, Free, Inv;
    DriftIsWord(p);
    FreeDrift(p, addr, n, boot);
    RegionSize(p, addr, boot);
    ShiftChanges(Drift(p), FreeDiffers(p, addr, n));
  }

  /** A call changes the distance between counter and free memory exactly when it is one of those. */
  lemma StepDrift(s: System, op: Op, boot: seq<Region>)
    requires SystemInv(s, boot) && ValidOp(op) && SmallCount(op)
    ensures Drift(Step(s, op).phys) != Drift(s.phys) <==> Drives(s.phys, op)
  {
    hide Drift, Alloc, Free, AllocLoses, FreeDiffers, Inv;
    match op {
      case AllocPages(n, alignment, ceiling) => AllocStepDrift(s.phys, n, alignment, ceiling, boot);
      case FreePages(addr, n) => FreeStepDrift(s.phys, addr, n, boot);
    }
  }

  lemma RegionSize(p: Phys, addr: nat, boot: seq<Region>)
    requires Inv(p, boot)
    ensures var k := FindUsed(p.regions, 0, addr); k < |p.regions| ==> p.regions[k].size <= ADDRESS_LIMIT
  {
    var k := FindUsed(p.regions, 0, addr);
    if k < |p.regions| { assert p.regions[k] in p.regions && Sound(p.regions[k]); }
  }

  ghost predicate RightThroughout(s: System, ops: seq<Op>)
    requires forall op :: op in ops ==> ValidOp(op)
    decreases |ops|
  {
    CounterRight(s.phys) && (ops == [] || RightThroughout(Step(s, ops[0]), ops[1..]))
  }

  ghost predicate NoneDrives(s: System, ops: seq<Op>)
    requires forall op :: op in ops ==> ValidOp(op)
    decreases |ops|
  {
    ops == [] || (!Drives(s.phys, ops[0]) && NoneDrives(Step(s, ops[0]), ops[1..]))
  }

  /** A right counter stays right throughout a run exactly when no call of it drives it off. */
  lemma {:induction false} RunStaysRight(s: System, ops: seq<Op>, boot: seq<Region>)
    requires SystemInv(s, boot) && CounterRight(s.phys) && forall op :: op in ops ==> ValidOp(op) && SmallCount(op)
    ensures RightThroughout(s, ops) <==> NoneDrives(s, ops)
    decreases |ops|
  {
    if ops != [] {
      hide Drift, CounterRight, Step, Drives, Inv;
      var t := Step(s, ops[0]);
      StepKeeps(s, ops[0], boot);
      StepDrift(s, ops[0], boot);
      RightIffNoDrift(s.phys, boot);
      RightIffNoDrift(t.phys, boot);
      if CounterRight(t.phys) { RunStaysRight(t, ops[1..], boot); }
    }
  }

  // ---------------------------------------------------------------- witnesses

  /** A block of two pages given back with a count of one: two pages are free, the counter says one. */
  lemma FreeCountWitness()
    ensures var p := Load(NO_MEMORY, [MapEntry(4096, 2, Conventional)]);
            var (q, a) := Alloc(p, 2, 4096, 0);
            var r := Free(q, a, 1);
            p.freePages == 2 && a == 4096 && r.freePages == 1 && FreeBytes(r.regions) == 8192
  {
    var e := MapEntry(4096, 2, Conventional);
    assert [e][1..] == [];
    var p := LoadEntry(NO_MEMORY, e);
    assert Load(p, []) == p && p.regions == [Region(4096, 8192, false)];
    assert AlignUp(4096, 4096) == 4096;
    var q := Alloc(p, 2, 4096, 0).0;
    assert q.regions == [Region(4096, 8192, true)];
    assert FindUsed(q.regions, 0, 4096) == 0;
    var r := Free(q, 4096, 1);
    assert r.regions == [Region(4096, 8192, false)];
    FreeBytesOne(r.regions[0]);
  }

  /** With every list node in use the tail of a block is handed out with it, uncounted. */
  lemma RefusedTailWitness(p: Phys)
    requires |p.regions| == POOL && p.regions[0] == Region(4096, 8192, false)
    ensures Alloc(p, 1, 4096, 0).1 == 4096 && AllocLoses(p, 1, 4096, 0) == 4096
  {
    hide AlignUp, FirstFit, Splice, Carve, Wrap;
    PageIsAligned();
    assert Bytes(1) == 4096 && Fits(p.regions[0], 4096, 4096, 0, Spare(p.regions));
    var k := FirstFit(p.regions, 0, 4096, 4096, 0);
    assert k == 0;
  }

  lemma PageIsAligned()
    ensures AlignUp(4096, 4096) == 4096
  {
  }
}
