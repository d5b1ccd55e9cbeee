/**
 Walking a directory on the disk: cluster by cluster along its chain, sector by sector, sixteen
 slots at a time. A slot is known by its number along the chain; the clusters walked so far tell
 where it lies.
 */
module FatScan {
  import opened Bytes
  import opened Wrappers
  import opened FatModel
  import opened FatDisk
  import opened FatRuns
  import opened FatNames
  import opened FatDirectory
  import opened FatSlots
  import opened FatVolume

  /** Sixteen slots of a sector, as slots base .. base + 16 of the directory. */
  ghost predicate SectorAt(bytes: seq<Byte>, slots: seq<Slot>, base: nat) {
    |bytes| == 512 && base + 16 <= |slots| && forall x :: 0 <= x < 16 ==> SlotAt(bytes, x) == slots[base + x]
  }

  /** What a scan that has come to slot i holds: entries so far, and pending long-name slots. */
  datatype Progress = Progress(entries: seq<Entry>, pending: seq<nat>, held: seq<Slot>, ended: bool)

  ghost predicate Scanned(slots: seq<Slot>, i: nat, s: Progress) {
    && i <= |slots| && (forall k :: 0 <= k < |s.pending| ==> s.pending[k] < i) && s.held == Select(slots, s.pending)
    && Scan(slots, 0, []) == s.entries + (if s.ended then [] else Scan(slots, i, s.pending)) && Below(s.entries, i)
  }

  ghost predicate Below(entries: seq<Entry>, n: nat) { forall e :: e in entries ==> e.at < n }

  /** One slot of scan_directory. */
  function ScanOne(s: Progress, slot: Slot, i: nat): Progress {
    if s.ended || IsEnd(slot) then s.(ended := true)
    else if IsLfn(slot) then
      if |s.pending| >= MAX_PIECES then s.(pending := [], held := [])
        else s.(pending := s.pending + [i], held := s.held + [slot])
    else if IsShort(slot) then Progress(s.entries + [Entry(NameOf(slot, s.held), slot, i, s.pending)], [], [], false)
    else s.(pending := [], held := [])
  }

  lemma ScanOneKeeps(slots: seq<Slot>, i: nat, s: Progress)
    requires i < |slots| && Scanned(slots, i, s) && !s.ended
    ensures Scanned(slots, if IsEnd(slots[i]) then i else i + 1, ScanOne(s, slots[i], i))
  {
    hide NameOf, IsLfn, IsShort, IsEnd, Scan;
    var t := ScanOne(s, slots[i], i);
    if IsEnd(slots[i]) {
      EndOfScan(slots, i, s.pending);
    } else if IsLfn(slots[i]) {
      ScanLfn(slots, i, s.pending);
      assert t.held == Select(slots, t.pending);
    } else if IsShort(slots[i]) {
      ScanShort(slots, i, s.pending);
      assert t.held == Select(slots, t.pending);
    } else {
      ScanSkip(slots, i, s.pending);
      assert t.held == Select(slots, t.pending);
    }
  }

  lemma EndOfScan(slots: seq<Slot>, i: nat, pending: seq<nat>)
    requires i < |slots| && (forall k :: 0 <= k < |pending| ==> pending[k] < i) && IsEnd(slots[i])
    ensures Scan(slots, i, pending) == []
  {
  }

  /** The slots of one sector. */
  method ScanSector(bytes: seq<Byte>, base: nat, start: Progress, ghost slots: seq<Slot>) returns (s: Progress)
    requires SectorAt(bytes, slots, base) && Scanned(slots, base, start) && !start.ended
    ensures s.ended ==> Scan(slots, 0, []) == s.entries && Below(s.entries, base + 16)
    ensures !s.ended ==> Scanned(slots, base + 16, s)
  {
    hide ScanOne, Scan;
    s := start;
    var x: nat := 0;
    while x < 16
      invariant x <= 16 && Scanned(slots, base + x, s) && !s.ended
    {
      ScanOneKeeps(slots, base + x, s);
      EndsOnEnd(s, slots[base + x], base + x);
      s := ScanOne(s, SlotAt(bytes, x), base + x);
      if s.ended { return; }
      x := x + 1;
    }
  }

  lemma EndsOnEnd(s: Progress, slot: Slot, i: nat)
    requires !s.ended
    ensures ScanOne(s, slot, i).ended <==> IsEnd(slot)
  {
  }

  // ------------------------------------------------------------------ clusters

  /** Sector j of the chain's cluster k holds slots (k * spc + j) * 16 on. */
  lemma SectorSlots(data: seq<seq<Byte>>, ch: seq<nat>, spc: nat, k: nat, j: nat, bytes: seq<Byte>)
    requires Whole(data, ch, 32 * (16 * spc)) && k < |ch| && j < spc && bytes == data[ch[k]][512 * j..512 * j + 512]
    ensures |DirSlots(data, ch)| == |ch| * (16 * spc)
    ensures SectorAt(bytes, DirSlots(data, ch), k * (16 * spc) + 16 * j)
  {
    hide DirSlots, SlotAt;
    SlotCount(data, ch, 16 * spc);
    MulBound(k, |ch|, 16 * j + 15, 16 * spc);
    forall x | 0 <= x < 16 ensures SlotAt(bytes, x) == DirSlots(data, ch)[k * (16 * spc) + 16 * j + x] {
      SectorSlot(data, ch, spc, k, j, bytes, x);
    }
  }

  lemma SectorSlot(data: seq<seq<Byte>>, ch: seq<nat>, spc: nat, k: nat, j: nat, bytes: seq<Byte>, x: nat)
    requires Whole(data, ch, 32 * (16 * spc)) && k < |ch| && j < spc && x < 16
             && bytes == data[ch[k]][512 * j..512 * j + 512]
    ensures k * (16 * spc) + (16 * j + x) < |DirSlots(data, ch)|
    ensures SlotAt(bytes, x) == DirSlots(data, ch)[k * (16 * spc) + (16 * j + x)]
  {
    hide DirSlots;
    SlotOf(data, ch, 16 * spc, k, 16 * j + x);
    SliceOfSlice(data[ch[k]], 512 * j, 512 * j + 512, 32 * x, 32 * x + 32);
  }

  /** The slots of a directory of this volume. */
  ghost function Slots(v: Volume, ch: seq<nat>): seq<Slot>
    requires v.Valid() && v.OnDisk(ch)
    reads v
  {
    DirSlots(v.Data(), ch)
  }

  lemma OnDiskWhole(v: Volume, ch: seq<nat>)
    requires v.Valid() && v.OnDisk(ch)
    ensures Whole(v.Data(), ch, 32 * (16 * v.g.spc)) && |ch| > 0 && |Slots(v, ch)| == |ch| * (16 * v.g.spc)
  {
    hide DirSlots, FatOf, DataOf, Coherent, InfoMatches;
    SlotCount(v.Data(), ch, 16 * v.g.spc);
  }

  /** One sector of a directory cluster. */
  method ReadSlots(v: Volume, c: nat, base: nat, j: nat, ghost ch: seq<nat>, ghost k: nat)
    returns (ok: bool, bytes: seq<Byte>)
    requires v.Valid() && v.OnDisk(ch) && k < |ch| && ch[k] == c && j < v.g.spc && base == k * (16 * v.g.spc)
    ensures v.reliable ==> ok
    ensures ok ==> SectorAt(bytes, Slots(v, ch), base + 16 * j)
  {
    hide DirSlots, FatOf, DataOf, Coherent, InfoMatches, SectorAt;
    OnDiskWhole(v, ch);
    ChainMember(v.Fat(), ch, v.g.clusters + 1, k);
    ok, bytes := v.ReadPart(c, ClusterLba(v.g, c) + j, 0, 512);
    if ok { SectorSlots(v.Data(), ch, v.g.spc, k, j, bytes); }
  }

  /** All sectors of one cluster, or up to the end marker. */
  method ScanCluster(v: Volume, c: nat, base: nat, start: Progress, ghost ch: seq<nat>, ghost k: nat)
    returns (ok: bool, s: Progress)
    requires v.Valid() && v.OnDisk(ch) && k < |ch| && ch[k] == c && base == k * (16 * v.g.spc)
    requires Scanned(Slots(v, ch), base, start) && !start.ended
    ensures v.reliable ==> ok
    ensures ok && s.ended ==> Scan(Slots(v, ch), 0, []) == s.entries && Below(s.entries, base + 16 * v.g.spc)
    ensures ok && !s.ended ==> Scanned(Slots(v, ch), base + 16 * v.g.spc, s)
  {
    hide DirSlots, FatOf, DataOf, Coherent, InfoMatches, SectorAt, Scan, Scanned;
    s := start;
    var j: nat := 0;
    while j < v.g.spc
      invariant j <= v.g.spc && Scanned(Slots(v, ch), base + 16 * j, s) && !s.ended
    {
      var bytes;
      ok, bytes := ReadSlots(v, c, base, j, ch, k);
      if !ok { return; }
      s := ScanSector(bytes, base + 16 * j, s, Slots(v, ch));
      if s.ended { return; }
      j := j + 1;
    }
    ok := true;
  }

  lemma ScannedStart(slots: seq<Slot>)
    ensures Scanned(slots, 0, Progress([], [], [], false))
  {
    hide Scan;
    assert Select(slots, []) == [];
  }

  lemma ScannedAll(slots: seq<Slot>, s: Progress)
    requires Scanned(slots, |slots|, s) && !s.ended
    ensures Scan(slots, 0, []) == s.entries && Below(s.entries, |slots|)
  {
  }

  lemma OneMore(k: nat, n: nat)
    ensures (k + 1) * n == k * n + n
  {
  }

  /** The chain's next cluster, or where it ends. */
  method NextCluster(v: Volume, cluster: nat, ghost ch: seq<nat>, ghost k: nat) returns (ok: bool, next: nat)
    requires v.Valid() && v.OnDisk(ch) && k < |ch| && ch[k] == cluster
    modifies v`cacheValid, v`cacheFirst, v`cacheCount, v`cache
    ensures v.Valid() && v.OnDisk(ch) && (v.reliable ==> ok)
    ensures ok ==> if k + 1 < |ch| then IsDataCluster(next) && next == ch[k + 1] else !IsDataCluster(next)
  {
    hide DirSlots, FatOf, DataOf, Coherent, InfoMatches, Chain;
    StretchOne(ch, k, cluster);
    LinkAfter(v.Fat(), ch, v.g.clusters + 1, k, 1, cluster);
    ok, next := v.ReadFatValue(cluster);
  }

  /** scan_directory with a callback that keeps every entry; `clusters` are those walked. */
  method ScanDirectory(v: Volume, dir: nat, ghost ch: seq<nat>)
    returns (ok: bool, entries: seq<Entry>, clusters: seq<nat>)
    requires v.Valid() && v.OnDisk(ch) && ch[0] == dir
    modifies v`cacheValid, v`cacheFirst, v`cacheCount, v`cache
    ensures v.Valid() && v.OnDisk(ch) && (v.reliable ==> ok)
    ensures ok ==> entries == Scan(Slots(v, ch), 0, []) && clusters <= ch && Below(entries, |clusters| * (16 * v.g.spc))
  {
    hide DirSlots, FatOf, DataOf, Coherent, InfoMatches, Scan, Scanned, Chain, Below;
    OnDiskWhole(v, ch);
    var s := Progress([], [], [], false);
    ScannedStart(Slots(v, ch));
    var per, base: nat := 16 * v.g.spc, 0;
    var cluster := dir;
    entries, clusters := [], [];
    ghost var slots := Slots(v, ch);
    while true
      invariant v.Valid() && v.OnDisk(ch) && Slots(v, ch) == slots && |clusters| < |ch| && clusters <= ch
                && cluster == ch[|clusters|]
      invariant base == |clusters| * per && Scanned(slots, base, s) && !s.ended
      decreases |ch| - |clusters|
    {
      ghost var k := |clusters|;
      ok, s := ScanCluster(v, cluster, base, s, ch, k);
      if !ok { return; }
      clusters := clusters + [cluster];
      OneMore(k, per);
      base := base + per;
      if s.ended { return true, s.entries, clusters; }
      var next;
      ok, next := NextCluster(v, cluster, ch, k);
      if !ok { return; }
      if !IsDataCluster(next) {
        ScannedAll(slots, s);
        return true, s.entries, clusters;
      }
      cluster := next;
    }
  }

  // ------------------------------------------------------------- finding room

  /** What the search for room that has come to slot i knows. */
  ghost predicate Searching(slots: seq<Slot>, i: nat, run: nat, ended: bool, needed: nat) {
    && i <= |slots| && run == RunState(slots, i).0
    && (ended == RunState(slots, i).1 || (ended && i < |slots| && IsEnd(slots[i])))
    && forall j :: 0 <= j <= i ==> RunState(slots, j).0 < needed
  }

  lemma SearchStep(slots: seq<Slot>, i: nat, run: nat, ended: bool, needed: nat)
    requires i < |slots| && Searching(slots, i, run, ended, needed)
    ensures var end := ended || IsEnd(slots[i]);
            var longer := if end || IsUnused(slots[i]) then run + 1 else 0;
            && longer <= needed && longer <= i + 1
            && (longer == needed ==> FirstRun(slots, needed, i + 1 - needed))
            && (longer < needed ==> Searching(slots, i + 1, longer, end, needed))
  {
    assert RunState(slots, i).0 < needed;
  }

  /** A first run is the one FindRun reports. */
  lemma FirstRunFound(slots: seq<Slot>, needed: nat, p: nat)
    requires needed > 0 && FirstRun(slots, needed, p)
    ensures FindRun(slots, needed, 0) == Some(p)
  {
    hide RunState;
    assert FindRun(slots, needed, 0).Some?;
  }

  lemma SearchedAll(slots: seq<Slot>, run: nat, ended: bool, needed: nat)
    requires needed > 0 && Searching(slots, |slots|, run, ended, needed)
    ensures FindRun(slots, needed, 0).None?
  {
    hide RunState;
  }

  /** The slots of one sector; `found` is where a long enough run starts. */
  method SearchSector(bytes: seq<Byte>, base: nat, run0: nat, ended0: bool, needed: nat, ghost slots: seq<Slot>)
    returns (run: nat, ended: bool, found: Option<nat>)
    requires SectorAt(bytes, slots, base) && Searching(slots, base, run0, ended0, needed)
    ensures found.Some? ==> FirstRun(slots, needed, found.value) && found.value + needed <= base + 16
    ensures found.None? ==> Searching(slots, base + 16, run, ended, needed)
  {
    hide Searching, FirstRun, IsEnd, IsUnused;
    run, ended, found := run0, ended0, None;
    var x: nat := 0;
    while x < 16
      invariant x <= 16 && Searching(slots, base + x, run, ended, needed) && found.None?
    {
      SearchStep(slots, base + x, run, ended, needed);
      var slot := SlotAt(bytes, x);
      if !ended && IsEnd(slot) { ended := true; }
      if ended || IsUnused(slot) { run := run + 1; } else { run := 0; }
      x := x + 1;
      if run == needed { return run, ended, Some(base + x - needed); }
    }
  }

  method SearchCluster(v: Volume, c: nat, base: nat, run0: nat, ended0: bool, needed: nat, ghost ch: seq<nat>,
                       ghost k: nat)
    returns (ok: bool, run: nat, ended: bool, found: Option<nat>)
    requires v.Valid() && v.OnDisk(ch) && k < |ch| && ch[k] == c && base == k * (16 * v.g.spc)
    requires Searching(Slots(v, ch), base, run0, ended0, needed)
    ensures v.reliable ==> ok
    ensures ok && found.Some? ==>
              FirstRun(Slots(v, ch), needed, found.value) && found.value + needed <= base + 16 * v.g.spc
    ensures ok && found.None? ==> Searching(Slots(v, ch), base + 16 * v.g.spc, run, ended, needed)
  {
    hide DirSlots, FatOf, DataOf, Coherent, InfoMatches, SectorAt, Searching, FirstRun, Chain;
    run, ended, found := run0, ended0, None;
    var j: nat := 0;
    while j < v.g.spc
      invariant j <= v.g.spc && Searching(Slots(v, ch), base + 16 * j, run, ended, needed) && found.None?
    {
      var bytes;
      ok, bytes := ReadSlots(v, c, base, j, ch, k);
      if !ok { return; }
      run, ended, found := SearchSector(bytes, base + 16 * j, run, ended, needed, Slots(v, ch));
      if found.Some? { return; }
      j := j + 1;
    }
    ok := true;
  }
}
