/** What every run of the physical page allocator keeps. */
module PhysMemoryProofs {
  import opened Machine
  import opened Alignment
  import opened Regions
  import opened PhysMemory

  // -------------------------------------------------------------------- init

  lemma {:induction false} LoadKeeps(p: Phys, entries: seq<MapEntry>)
    requires SaneMap(entries) && Inv(p, p.regions)
    requires forall i, e :: 0 <= i < |p.regions| && e in entries ==> p.regions[i].End() <= e.start
    requires forall i :: 0 <= i < |p.regions| ==> !p.regions[i].used
    ensures var q := Load(p, entries); Inv(q, q.regions) && forall i :: 0 <= i < |q.regions| ==> !q.regions[i].used
    decreases |entries|
  {
    hide Wrap;
    if entries == [] {
    } else if WantsNode(entries[0]) && Spare(p.regions) <= 0 {
    } else {
      var q := LoadEntry(p, entries[0]);
      assert Inv(q, q.regions);
      LoadKeeps(q, entries[1..]);
    }
  }

  /** After boot the list satisfies the invariant for its own contents, nothing in use. */
  lemma InitEstablishes(entries: seq<MapEntry>)
    requires SaneMap(entries)
    ensures var q := Load(NO_MEMORY, entries); Inv(q, q.regions) && LiveMatches(q.regions, map[])
  {
    LoadKeeps(NO_MEMORY, entries);
  }

  // ---------------------------------------------------------------- allocate

  lemma CarveShape(r: Region, a: nat, req: nat, spare: int)
    requires r.size > 0 && r.start <= a && a + req <= r.End() && req > 0
    ensures var mid := Carve(r, a, req, spare);
            && Ordered(mid)
            && (forall m :: 0 <= m < |mid| ==> r.start <= mid[m].start && mid[m].End() <= r.End())
            && (forall x :: Covered(mid, x) ==> In(r, x))
  {
  }

  lemma CarveSound(r: Region, a: nat, req: nat, spare: int)
    requires Sound(r) && r.start <= a && a + req <= r.End() && req > 0
    requires a % PAGE == 0 && req % PAGE == 0
    ensures forall m :: m in Carve(r, a, req, spare) ==> Sound(m)
  {
    CutInPages(r.start, r.size, a, req);
  }

  lemma CutInPages(start: nat, size: nat, a: nat, req: nat)
    requires start % PAGE == 0 && size % PAGE == 0 && a % PAGE == 0 && req % PAGE == 0
    ensures (a - start) % PAGE == 0 && (a + req) % PAGE == 0 && (start + size - (a + req)) % PAGE == 0
  {
    var i, n, j, m := start / PAGE, size / PAGE, a / PAGE, req / PAGE;
    assert a - start == (j - i) * PAGE && a + req == (j + m) * PAGE;
    assert start + size - (a + req) == (i + n - j - m) * PAGE;
  }

  /** The one used region a carve leaves starts at the result and holds the request. */
  lemma CarveUsed(r: Region, a: nat, req: nat, spare: int)
    requires !r.used && r.start <= a && a + req <= r.End() && req > 0
    ensures var mid := Carve(r, a, req, spare);
            && (forall m :: m in mid && m.used ==> m.start == a && m.size >= req)
            && (exists m :: m in mid && m.used && m.start == a)
  {
    var mid := Carve(r, a, req, spare);
    if a == r.start { assert mid[0].used && mid[0] in mid; } else { assert mid[1].used && mid[1] in mid; }
  }

  /** What replaces a region lies inside it, in order. */
  ghost predicate Inside(mid: seq<Region>, r: Region) {
    && Ordered(mid)
    && (forall m :: 0 <= m < |mid| ==> r.start <= mid[m].start && mid[m].End() <= r.End())
    && (forall m :: m in mid ==> Sound(m))
  }

  lemma CarveInside(r: Region, a: nat, req: nat, spare: int)
    requires Sound(r) && r.size > 0 && r.start <= a && a + req <= r.End() && req > 0
    requires a % PAGE == 0 && req % PAGE == 0
    ensures Inside(Carve(r, a, req, spare), r)
    ensures |Carve(r, a, req, spare)|
         <= if a == r.start then 1 + (if spare > 0 then 1 else 0) else 2 + (if spare > 1 then 1 else 0)
  {
    hide Sound;
    CarveShape(r, a, req, spare);
    CarveSound(r, a, req, spare);
  }

  lemma InsideCoversLess(rs: seq<Region>, k: nat, mid: seq<Region>)
    requires k < |rs| && Inside(mid, rs[k])
    ensures forall x :: Covered(Splice(rs, k, k + 1, mid), x) ==> Covered(rs, x)
  {
    hide Sound, Splice, Ordered;
    assert rs[k..k + 1] == [rs[k]];
    forall x | Covered(mid, x) ensures Covered(rs[k..k + 1], x) { assert In(rs[k..k + 1][0], x); }
    SpliceCoversLess(rs, k, k + 1, mid);
  }

  lemma InsideKeepsInv(p: Phys, k: nat, mid: seq<Region>, q: Phys, boot: seq<Region>)
    requires Inv(p, boot) && k < |p.regions| && Inside(mid, p.regions[k]) && |p.regions| - 1 + |mid| <= POOL
    requires q.regions == Splice(p.regions, k, k + 1, mid) && q.usedPages < U64 && q.freePages < U64
    ensures Inv(q, boot)
  {
    hide Sound, Splice, Ordered, Covered;
    SpliceOrdered(p.regions, k, k + 1, mid);
    SpliceMembers(p.regions, k, k + 1, mid);
    InsideCoversLess(p.regions, k, mid);
    SpliceLength(p.regions, k, k + 1, mid);
  }

  lemma WholePages(pages: nat)
    requires pages > 0
    ensures Bytes(pages) > 0 && Bytes(pages) % PAGE == 0
  {
  }

  lemma CarveKeepsInv(p: Phys, k: nat, a: nat, req: nat, q: Phys, boot: seq<Region>)
    requires Inv(p, boot) && k < |p.regions| && p.regions[k].start <= a && a + req <= p.regions[k].End() && req > 0
    requires a % PAGE == 0 && req % PAGE == 0 && (a == p.regions[k].start || Spare(p.regions) > 0)
    requires q.regions == Splice(p.regions, k, k + 1, Carve(p.regions[k], a, req, Spare(p.regions)))
    requires q.usedPages < U64 && q.freePages < U64
    ensures Inv(q, boot)
  {
    hide Sound, Covered, Splice, Carve, Inside;
    assert p.regions[k] in p.regions;
    CarveInside(p.regions[k], a, req, Spare(p.regions));
    InsideKeepsInv(p, k, Carve(p.regions[k], a, req, Spare(p.regions)), q, boot);
  }

  lemma InvSound(p: Phys, boot: seq<Region>, k: nat)
    requires Inv(p, boot) && k < |p.regions|
    ensures Sound(p.regions[k])
  {
    hide Sound, Covered, Ordered;
    assert p.regions[k] in p.regions;
  }

  lemma AllocKeepsInv(p: Phys, pages: nat, alignment: nat, ceiling: nat, boot: seq<Region>)
    requires Inv(p, boot) && PowerOfTwo(alignment)
    ensures Inv(Alloc(p, pages, alignment, ceiling).0, boot)
  {
    hide Inv, Covered, Splice, Carve, Wrap, Bytes, AlignUp, Divides;
    var rs, req := p.regions, Bytes(pages);
    var k := FirstFit(rs, 0, req, alignment, ceiling);
    if pages > 0 && k < |rs| {
      var a := AlignUp(rs[k].start, alignment);
      WholePages(pages);
      InvSound(p, boot, k);
      AlignUpKeepsPages(rs[k].start, alignment);
      CarveKeepsInv(p, k, a, req, Alloc(p, pages, alignment, ceiling).0, boot);
    }
  }

  /** Success is at an aligned nonzero address under the ceiling; failure means nothing fits. */
  lemma AllocResult(p: Phys, pages: nat, alignment: nat, ceiling: nat, boot: seq<Region>)
    requires Inv(p, boot) && PowerOfTwo(alignment)
    ensures var (q, a) := Alloc(p, pages, alignment, ceiling);
            && (a == 0 ==> q == p)
            && (a == 0 <==>
                  || pages == 0
                  || forall r :: r in p.regions ==> !Fits(r, Bytes(pages), alignment, ceiling, Spare(p.regions)))
            && (a != 0 ==> Divides(alignment, a) && a % PAGE == 0 && (ceiling != 0 ==> a + Bytes(pages) <= ceiling))
            && (a != 0 ==> exists r :: r in p.regions && !r.used && r.start <= a && a + Bytes(pages) <= r.End())
            && (a != 0 ==> exists r :: r in q.regions && r.used && r.start == a && Bytes(pages) <= r.size)
  {
    var rs, req := p.regions, Bytes(pages);
    var k := FirstFit(rs, 0, req, alignment, ceiling);
    if pages > 0 && k < |rs| {
      var r := rs[k];
      var a := AlignUp(r.start, alignment);
      assert r in rs;
      AlignUpKeepsPages(r.start, alignment);
      CarveUsed(r, a, req, Spare(rs));
      SpliceMembers(rs, k, k + 1, Carve(r, a, req, Spare(rs)));
    }
  }

  /** The result is not live already, and joins the live allocations. */
  lemma AllocKeepsLive(p: Phys, pages: nat, alignment: nat, ceiling: nat, boot: seq<Region>, live: map<nat, nat>)
    requires Inv(p, boot) && PowerOfTwo(alignment) && LiveMatches(p.regions, live)
    ensures var (q, a) := Alloc(p, pages, alignment, ceiling);
            if a == 0 then LiveMatches(q.regions, live)
            else a !in live && LiveMatches(q.regions, live[a := Bytes(pages)])
  {
    hide Wrap, Carve, Splice, Bytes, AlignUp, Divides, LiveMatches, Covered;
    var rs, req := p.regions, Bytes(pages);
    var k := FirstFit(rs, 0, req, alignment, ceiling);
    if pages > 0 && k < |rs| {
      var r := rs[k];
      var a := AlignUp(r.start, alignment);
      WholePages(pages);
      InvSound(p, boot, k);
      var mid := Carve(r, a, req, Spare(rs));
      CarveUsed(r, a, req, Spare(rs));
      NotLive(rs, k, a, live);
      CarvedIsLive(rs, k, mid, a, req, live);
    }
  }

  // -------------------------------------------------------------------- free

  /** The merged region spans exactly its parts. */
  lemma ReleasedSpan(rs: seq<Region>, k: nat, lo: nat, hi: nat)
    requires Ordered(rs) && k < |rs|
    requires lo == if MergesPrev(rs, k) then k - 1 else k
    requires hi == if MergesNext(rs, k) then k + 2 else k + 1
    ensures var one := Release(rs, k)[lo];
            && Release(rs, k) == Splice(rs, lo, hi, [one]) && !one.used
            && one.start == rs[lo].start && one.End() == rs[hi - 1].End()
            && (forall x :: In(one, x) ==> Covered(rs[lo..hi], x))
  {
    var one := Release(rs, k)[lo];
    forall x | In(one, x) ensures Covered(rs[lo..hi], x) {
      var m := if In(rs[k], x) then k else if x < rs[k].start then k - 1 else k + 1;
      assert In(rs[lo..hi][m - lo], x);
    }
  }

  lemma SoundSpan(a: Region, b: Region, r: Region)
    requires Sound(a) && Sound(b) && r.start == a.start && r.End() == b.End() && a.start <= b.start
    ensures Sound(r)
  {
    assert r.size == b.start + b.size - a.start;
  }

  lemma ReleaseKeeps(rs: seq<Region>, k: nat)
    requires Ordered(rs) && k < |rs|
    requires forall r :: r in rs ==> Sound(r)
    ensures var s := Release(rs, k);
            && Ordered(s) && |s| <= |rs| && (forall r :: r in s ==> Sound(r))
            && (forall x :: Covered(s, x) ==> Covered(rs, x))
  {
    var lo := if MergesPrev(rs, k) then k - 1 else k;
    var hi := if MergesNext(rs, k) then k + 2 else k + 1;
    ReleasedSpan(rs, k, lo, hi);
    var one := Release(rs, k)[lo];
    assert rs[lo] in rs && rs[hi - 1] in rs;
    SoundSpan(rs[lo], rs[hi - 1], one);
    assert Ordered([one]);
    SpliceOrdered(rs, lo, hi, [one]);
    SpliceMembers(rs, lo, hi, [one]);
    SpliceCoversLess(rs, lo, hi, [one]);
  }

  lemma FreeKeepsInv(p: Phys, addr: nat, pages: nat, boot: seq<Region>)
    requires Inv(p, boot)
    ensures Inv(Free(p, addr, pages), boot)
  {
    var k := FindUsed(p.regions, 0, addr);
    if addr != 0 && pages != 0 && k < |p.regions| { ReleaseKeeps(p.regions, k); }
  }

  lemma ReleaseKeepsLive(rs: seq<Region>, k: nat, live: map<nat, nat>)
    requires Ordered(rs) && LiveMatches(rs, live) && k < |rs| && rs[k].used
    ensures LiveMatches(Release(rs, k), live - {rs[k].start})
  {
    hide Release, LiveMatches, Covered, Ordered;
    var lo := if MergesPrev(rs, k) then k - 1 else k;
    var hi := if MergesNext(rs, k) then k + 2 else k + 1;
    ReleasedSpan(rs, k, lo, hi);
    MergedIsFreed(rs, lo, hi, k, Release(rs, k)[lo], live);
  }

  lemma FreeKeepsLive(p: Phys, addr: nat, pages: nat, boot: seq<Region>, live: map<nat, nat>)
    requires Inv(p, boot) && LiveMatches(p.regions, live) && pages > 0
    ensures LiveMatches(Free(p, addr, pages).regions, live - {addr})
  {
    var k := FindUsed(p.regions, 0, addr);
    if addr != 0 && k < |p.regions| {
      ReleaseKeepsLive(p.regions, k, live);
    } else {
      assert forall r :: r in p.regions && r.used ==> Sound(r) && r.start != addr;
      assert live - {addr} == live;
    }
  }

  // -------------------------------------------------------------------- runs

  datatype Op = AllocPages(pages: nat, alignment: nat, ceiling: nat) | FreePages(addr: nat, count: nat)

  /** The allocator together with what its clients hold. */
  datatype System = System(phys: Phys, live: map<nat, nat>)

  ghost predicate ValidOp(op: Op) {
    op.AllocPages? ==> PowerOfTwo(op.alignment)
  }

  ghost function Step(s: System, op: Op): System
    requires ValidOp(op)
  {
    match op
    case AllocPages(n, alignment, ceiling) =>
      var (q, a) := Alloc(s.phys, n, alignment, ceiling);
      System(q, if a == 0 then s.live else s.live[a := Bytes(n)])
    case FreePages(addr, n) =>
      System(Free(s.phys, addr, n), if n == 0 then s.live else s.live - {addr})
  }

  ghost function Run(s: System, ops: seq<Op>): System
    requires forall op :: op in ops ==> ValidOp(op)
    decreases |ops|
  {
    if ops == [] then s else Run(Step(s, ops[0]), ops[1..])
  }

  ghost predicate SystemInv(s: System, boot: seq<Region>) {
    Inv(s.phys, boot) && LiveMatches(s.phys.regions, s.live)
  }

  lemma StepKeeps(s: System, op: Op, boot: seq<Region>)
    requires SystemInv(s, boot) && ValidOp(op)
    ensures SystemInv(Step(s, op), boot)
  {
    match op
    case AllocPages(n, alignment, ceiling) =>
      AllocKeepsInv(s.phys, n, alignment, ceiling, boot);
      AllocKeepsLive(s.phys, n, alignment, ceiling, boot, s.live);
    case FreePages(addr, n) =>
      FreeKeepsInv(s.phys, addr, n, boot);
      if n > 0 { FreeKeepsLive(s.phys, addr, n, boot, s.live); }
  }

  lemma {:induction false} RunKeeps(s: System, ops: seq<Op>, boot: seq<Region>)
    requires SystemInv(s, boot) && forall op :: op in ops ==> ValidOp(op)
    ensures SystemInv(Run(s, ops), boot)
    decreases |ops|
  {
    if ops != [] {
      StepKeeps(s, ops[0], boot);
      RunKeeps(Step(s, ops[0]), ops[1..], boot);
    }
  }

  /** Live allocations are whole, apart from each other and inside the memory free at boot. */
  lemma LiveIsSafe(s: System, boot: seq<Region>, a: nat, b: nat, x: int)
    requires SystemInv(s, boot) && a in s.live && a <= x < a + s.live[a]
    ensures a > 0 && a % PAGE == 0 && Covered(boot, x)
    ensures b in s.live && b <= x < b + s.live[b] ==> a == b
  {
    var r :| r in s.phys.regions && r.used && r.start == a;
    assert Sound(r);
    LiveDisjoint(s.phys.regions, s.live, a, b, x);
  }

  /** From boot, over every run: safety of all live pages, and of the next allocation. */
  lemma EveryRunIsSafe(entries: seq<MapEntry>, ops: seq<Op>, a: nat, b: nat, x: int)
    requires SaneMap(entries) && forall op :: op in ops ==> ValidOp(op)
    ensures var start := Load(NO_MEMORY, entries); var s := Run(System(start, map[]), ops);
            && Ordered(s.phys.regions)
            && (a in s.live && a <= x < a + s.live[a] ==>
                  && a > 0 && a % PAGE == 0 && Covered(start.regions, x)
                  && (b in s.live && b <= x < b + s.live[b] ==> a == b))
  {
    InitEstablishes(entries);
    var start := Load(NO_MEMORY, entries);
    RunKeeps(System(start, map[]), ops, start.regions);
    var s := Run(System(start, map[]), ops);
    if a in s.live && a <= x < a + s.live[a] { LiveIsSafe(s, start.regions, a, b, x); }
  }

  lemma ModShift(u: int, f: int, n: int)
    ensures Wrap(Wrap(u + n) + Wrap(f - n)) == Wrap(u + f)
  {
    var x, y := (u + n) / U64, (f - n) / U64;
    assert Wrap(u + n) + Wrap(f - n) == (u + f) - U64 * (x + y);
  }

  lemma StepConservesCounters(s: System, op: Op)
    requires ValidOp(op)
    ensures var t := Step(s, op);
            Wrap(t.phys.usedPages + t.phys.freePages) == Wrap(s.phys.usedPages + s.phys.freePages)
  {
    match op
    case AllocPages(n, _, _) => ModShift(s.phys.usedPages, s.phys.freePages, n);
    case FreePages(_, n) => ModShift(s.phys.usedPages, s.phys.freePages, 0 - n);
  }

  /** used + free pages is constant as a 64-bit word. */
  lemma {:induction false} CountersConserved(s: System, ops: seq<Op>)
    requires forall op :: op in ops ==> ValidOp(op)
    ensures Wrap(Run(s, ops).phys.usedPages + Run(s, ops).phys.freePages) == Wrap(s.phys.usedPages + s.phys.freePages)
    decreases |ops|
  {
    hide Step, Wrap;
    if ops != [] { StepConservesCounters(s, ops[0]); CountersConserved(Step(s, ops[0]), ops[1..]); }
  }

  // ------------------------------------------------------ allocate then free

  /**
   When freeing what was just carved out of region k gives back the same list: no tail was
   lost, and neither end of the used region meets a free neighbour of the old list.
   */
  ghost predicate Restorable(rs: seq<Region>, k: nat, a: nat, req: nat)
    requires k < |rs|
  {
    var pre, post := a - rs[k].start, rs[k].End() - (a + req);
    && !(pre > 0 && post > 0 && Spare(rs) == 1)
    && (pre == 0 ==> !MergesPrev(rs, k))
    && (post == 0 || (pre == 0 && Spare(rs) <= 0) ==> !MergesNext(rs, k))
  }

  /** The freed address is found where the carve put it. */
  lemma FindsCarved(s: seq<Region>, idx: nat)
    requires Ordered(s) && idx < |s| && s[idx].used
    ensures FindUsed(s, 0, s[idx].start) == idx
  {
    OrderedStarts(s, FindUsed(s, 0, s[idx].start), idx);
  }

  /** Merging the pieces of a carve back, when nothing outside them joins in. */
  lemma PiecesRejoin(rs: seq<Region>, k: nat, mid: seq<Region>)
    requires k < |rs|
    ensures var s := Splice(rs, k, k + 1, mid); Splice(s, k, k + |mid|, [rs[k]]) == rs
  {
    var s := Splice(rs, k, k + 1, mid);
    assert s[..k] == rs[..k];
    assert s[k + |mid|..] == rs[k + 1..];
  }

  lemma FrontCarveRestores(rs: seq<Region>, k: nat, req: nat, mid: seq<Region>, s: seq<Region>)
    requires Ordered(rs) && k < |rs| && !rs[k].used && 0 < req <= rs[k].size
    requires mid == Carve(rs[k], rs[k].start, req, Spare(rs)) && s == Splice(rs, k, k + 1, mid)
    ensures k < |s| && s[k].used && s[k].start == rs[k].start
    ensures Release(s, k) == rs <==> Restorable(rs, k, rs[k].start, req)
  {
    hide Ordered, Release, MergesPrev, MergesNext, Restorable;
    assert mid == if req < rs[k].size && Spare(rs) > 0
      then [Region(rs[k].start, req, true), Region(rs[k].start + req, rs[k].size - req, false)]
      else [rs[k].(used := true)];
    if |mid| == 2 { FrontWithTail(rs, k, req, mid, s); } else { FrontWhole(rs, k, req, s); }
  }

  /** Releasing region k shortens the list by the neighbours that join it. */
  lemma ReleaseLength(s: seq<Region>, k: nat)
    requires k < |s|
    ensures |Release(s, k)| == |s| - (if MergesPrev(s, k) then 1 else 0) - (if MergesNext(s, k) then 1 else 0)
  {
  }

  /** A release that joins exactly the pieces of one free region gives that region back. */
  lemma ReleaseRejoins(rs: seq<Region>, k: nat, mid: seq<Region>, s: seq<Region>, i: nat)
    requires k < |rs| && !rs[k].used && s == Splice(rs, k, k + 1, mid) && k <= i < k + |mid| && i < |s|
    requires k == if MergesPrev(s, i) then i - 1 else i
    requires k + |mid| == if MergesNext(s, i) then i + 2 else i + 1
    requires s[k].start == rs[k].start
    requires rs[k].size == s[i].size + (if k < i then s[i - 1].size else 0)
                           + (if k + |mid| > i + 1 then s[i + 1].size else 0)
    ensures Release(s, i) == rs
  {
    PiecesRejoin(rs, k, mid);
  }

  lemma FrontWithTail(rs: seq<Region>, k: nat, req: nat, mid: seq<Region>, s: seq<Region>)
    requires k < |rs| && !rs[k].used && 0 < req < rs[k].size && Spare(rs) > 0
    requires mid == [Region(rs[k].start, req, true), Region(rs[k].start + req, rs[k].size - req, false)]
    requires s == Splice(rs, k, k + 1, mid)
    ensures k < |s| && s[k].used && s[k].start == rs[k].start
    ensures Release(s, k) == rs <==> Restorable(rs, k, rs[k].start, req)
  {
    hide Release;
    assert s[k] == mid[0] && s[k + 1] == mid[1] && (k > 0 ==> s[k - 1] == rs[k - 1]);
    assert MergesNext(s, k) && MergesPrev(s, k) == MergesPrev(rs, k);
    ReleaseLength(s, k);
    if !MergesPrev(s, k) { ReleaseRejoins(rs, k, mid, s, k); }
  }

  lemma FrontWhole(rs: seq<Region>, k: nat, req: nat, s: seq<Region>)
    requires k < |rs| && !rs[k].used && 0 < req <= rs[k].size && !(req < rs[k].size && Spare(rs) > 0)
    requires s == Splice(rs, k, k + 1, [rs[k].(used := true)])
    ensures k < |s| && s[k].used && s[k].start == rs[k].start
    ensures Release(s, k) == rs <==> Restorable(rs, k, rs[k].start, req)
  {
    hide Release;
    var mid := [rs[k].(used := true)];
    assert s[k] == mid[0] && (k > 0 ==> s[k - 1] == rs[k - 1]) && (k + 1 < |rs| ==> s[k + 1] == rs[k + 1]);
    assert MergesNext(s, k) == MergesNext(rs, k) && MergesPrev(s, k) == MergesPrev(rs, k);
    ReleaseLength(s, k);
    if !MergesPrev(s, k) && !MergesNext(s, k) { ReleaseRejoins(rs, k, mid, s, k); }
  }

  /** With the tail kept, both sides merge back. */
  lemma InnerCarveRejoins(rs: seq<Region>, k: nat, a: nat, req: nat, mid: seq<Region>, s: seq<Region>)
    requires k < |rs| && !rs[k].used && rs[k].start < a && 0 < req && a + req < rs[k].End()
    requires mid == [Region(rs[k].start, a - rs[k].start, false), Region(a, req, true),
                     Region(a + req, rs[k].End() - (a + req), false)]
    requires s == Splice(rs, k, k + 1, mid)
    ensures Release(s, k + 1) == rs
  {
    assert s[k] == mid[0] && s[k + 1] == mid[1] && s[k + 2] == mid[2];
    PiecesRejoin(rs, k, mid);
  }

  /** Without it, the front merges back and the old neighbour may join in. */
  lemma InnerCarveNoTail(rs: seq<Region>, k: nat, a: nat, req: nat, mid: seq<Region>, s: seq<Region>)
    requires Ordered(rs) && k < |rs| && !rs[k].used && rs[k].start < a && 0 < req && a + req <= rs[k].End()
    requires mid == [Region(rs[k].start, a - rs[k].start, false), Region(a, req, true)]
    requires s == Splice(rs, k, k + 1, mid)
    ensures Release(s, k + 1) == rs <==> a + req == rs[k].End() && !MergesNext(rs, k)
  {
    var v := Release(s, k + 1);
    assert s[k] == mid[0] && s[k + 1] == mid[1] && MergesPrev(s, k + 1);
    assert k + 1 < |rs| ==> s[k + 2] == rs[k + 1];
    if a + req < rs[k].End() {
      assert !MergesNext(s, k + 1);
      assert v[k].size != rs[k].size;
    } else {
      PiecesRejoin(rs, k, mid);
      if MergesNext(s, k + 1) { assert |v| < |rs|; }
    }
  }

  lemma CarveThenRelease(rs: seq<Region>, k: nat, a: nat, req: nat, s: seq<Region>)
    requires Ordered(rs) && k < |rs| && !rs[k].used && rs[k].start <= a && 0 < req && a + req <= rs[k].End()
    requires (a == rs[k].start || Spare(rs) > 0)
    requires s == Splice(rs, k, k + 1, Carve(rs[k], a, req, Spare(rs))) && Ordered(s)
    ensures var i := FindUsed(s, 0, a); i < |s| && (Release(s, i) == rs <==> Restorable(rs, k, a, req))
  {
    hide Release, MergesPrev, MergesNext, Ordered;
    if a == rs[k].start {
      FrontCarveRestores(rs, k, req, Carve(rs[k], a, req, Spare(rs)), s);
      FindsCarved(s, k);
    } else {
      var mid := Carve(rs[k], a, req, Spare(rs));
      assert s[k + 1] == mid[1];
      FindsCarved(s, k + 1);
      if |mid| == 3 { InnerCarveRejoins(rs, k, a, req, mid, s); } else { InnerCarveNoTail(rs, k, a, req, mid, s); }
    }
  }

  /** Freeing right after a successful allocation restores the exact list iff Restorable. */
  lemma AllocThenFree(p: Phys, pages: nat, alignment: nat, ceiling: nat, boot: seq<Region>)
    requires Inv(p, boot) && PowerOfTwo(alignment)
    ensures var (q, a) := Alloc(p, pages, alignment, ceiling);
            var k := FirstFit(p.regions, 0, Bytes(pages), alignment, ceiling);
            a != 0 ==> k < |p.regions|
                       && (Free(q, a, pages).regions == p.regions <==> Restorable(p.regions, k, a, Bytes(pages)))
  {
    var (q, a) := Alloc(p, pages, alignment, ceiling);
    AllocKeepsInv(p, pages, alignment, ceiling, boot);
    if a != 0 {
      CarveThenRelease(p.regions, FirstFit(p.regions, 0, Bytes(pages), alignment, ceiling), a, Bytes(pages), q.regions);
    }
  }

  /** Two touching free pages from the memory map: allocating and freeing one joins them. */
  lemma AllocThenFreeWitness()
    ensures var p := Load(NO_MEMORY, [MapEntry(4096, 1, Conventional), MapEntry(8192, 1, BootServicesData)]);
            var (q, a) := Alloc(p, 1, 4096, 0);
            a == 4096 && Free(q, a, 1).regions == [Region(4096, 8192, false)] != p.regions
  {
    var e, d := MapEntry(4096, 1, Conventional), MapEntry(8192, 1, BootServicesData);
    assert [e, d][1..] == [d] && [d][1..] == [];
    var p := LoadEntry(LoadEntry(NO_MEMORY, e), d);
    assert p.regions == [Region(4096, 4096, false), Region(8192, 4096, false)];
    assert Load(p, []) == p;
    assert Load(LoadEntry(NO_MEMORY, e), [d]) == p;
    assert Load(NO_MEMORY, [e, d]) == p;
    AlignUpFixed(4096, 4096);
    assert FirstFit(p.regions, 0, 4096, 4096, 0) == 0;
    var q := Alloc(p, 1, 4096, 0).0;
    assert q.regions == [Region(4096, 4096, true), Region(8192, 4096, false)];
    assert FindUsed(q.regions, 0, 4096) == 0;
  }
}
