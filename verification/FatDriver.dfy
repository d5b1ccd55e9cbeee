/**
 write_file and remove_file on the mounted volume: every step reads and writes sectors, and the
 outcome is the one module FatHistory describes. `chains` says who owns which clusters.
 */
module FatDriver {
  import opened Bytes
  import opened Wrappers
  import opened FatModel
  import opened FatProofs
  import opened FatDisk
  import opened FatRuns
  import opened FatNames
  import opened FatDirectory
  import opened FatRemove
  import opened FatUpdate
  import opened FatCreate
  import opened FatSlots
  import opened FatOwners
  import opened FatFiles
  import opened FatOps
  import opened FatHistory
  import opened FatVolume
  import opened FatScan

  /** The volume's own terms for a directory chain. */
  lemma VolumeTerms(v: Volume, ch: seq<nat>)
    requires v.Valid()
    ensures v.View().max == v.g.clusters + 1 && v.View().clusterBytes == v.g.spc * 512 && Per(v.View()) == 16 * v.g.spc
    ensures Shape(v.View()) && v.View().clusterBytes % 32 == 0
    ensures v.OnDisk(ch) <==> DirChain(v.View(), ch)
  {
    hide FatOf, DataOf, Coherent, InfoMatches, Chain;
  }

  lemma ExtendLast(v: Vol, ch: seq<nat>, c: nat)
    requires ch != [] && ch[|ch| - 1] < |v.fat| && c < |v.data|
    ensures Extend(v, ch, c, []) == Extend(v, [ch[|ch| - 1]], c, [])
  {
  }

  /** The search goes on unchanged in a directory that grew. */
  lemma SearchingGrown(a: seq<Slot>, b: seq<Slot>, run: nat, ended: bool, needed: nat)
    requires Searching(a, |a|, run, ended, needed) && Grown(a, b) && |a| < |b|
    ensures Searching(b, |a|, run, true, needed)
  {
    forall j | 0 <= j <= |a| ensures RunState(b, j) == RunState(a, j) { RunStateGrown(a, b, j); }
  }

  /** append_directory_cluster, seen as one more unfolding of AllocSlots. */
  lemma AllocSlotsAppends(v: Vol, ch: seq<nat>, needed: nat)
    requires DirChain(v, ch) && needed > 0 && DirFits(v, ch) && FindRun(DirSlots(v.data, ch), needed, 0).None?
    ensures Allocate(v).1 == 0 ==> AllocSlots(v, ch, needed) == (v, ch, None)
    ensures Allocate(v).1 != 0 ==>
              var (w, c) := Allocate(v);
              && c <= v.max && |ch| > 0 && ch[|ch| - 1] < |w.fat| && c < |w.data|
              && DirChain(Extend(w, ch, c, []), ch + [c])
              && |Extend(w, ch, c, []).fat| == |v.fat| && NonZero(Extend(w, ch, c, []).fat) > NonZero(v.fat)
              && AllocSlots(v, ch, needed) == AllocSlots(Extend(w, ch, c, []), ch + [c], needed)
  {
    hide DirSlots, FindRun, Extend, Allocate, Chain;
    AllocateRange(v);
    if Allocate(v).1 != 0 { AppendDirChain(v, ch); }
  }

  lemma AllocSlotsFound(v: Vol, ch: seq<nat>, needed: nat, p: nat)
    requires DirChain(v, ch) && needed > 0 && DirFits(v, ch) && FirstRun(DirSlots(v.data, ch), needed, p)
    ensures AllocSlots(v, ch, needed) == (v, ch, Some(p))
  {
    hide DirSlots, FindRun, Extend, Allocate, Chain;
    FirstRunFound(DirSlots(v.data, ch), needed, p);
  }

  /** The volume before and after a directory without room took one more cluster. */
  ghost predicate GrownForRoom(before: Vol, after: Vol, ch: seq<nat>, c: nat, needed: nat, at: nat, run: nat) {
    && DirChain(before, ch) && DirChain(after, ch + [c]) && DirFits(after, ch + [c]) && needed > 0
    && AllocSlots(after, ch + [c], needed) == AllocSlots(before, ch, needed)
    && |after.fat| == |before.fat| && NonZero(after.fat) > NonZero(before.fat)
    && Searching(DirSlots(after.data, ch + [c]), at, run, true, needed)
  }

  ghost predicate NoRoom(before: Vol, after: Vol, ch: seq<nat>, needed: nat) {
    after == before && DirChain(before, ch) && needed > 0 && AllocSlots(before, ch, needed) == (before, ch, None)
  }

  /** One more, zeroed, cluster at the end of a directory in which no room was found. */
  method AppendForRoom(v: Volume, last: nat, needed: nat, at: nat, run: nat, ended: bool, ghost ch: seq<nat>)
    returns (ok: bool, cluster: nat)
    requires v.Valid() && v.OnDisk(ch) && |ch| > 0 && last == ch[|ch| - 1] && needed > 0
    requires at == |Slots(v, ch)| && Searching(Slots(v, ch), at, run, ended, needed)
    modifies v
    ensures v.Valid()
    ensures ok ==> v.OnDisk(ch + [cluster]) && GrownForRoom(old(v.View()), v.View(), ch, cluster, needed, at, run)
    ensures !ok && v.reliable ==> NoRoom(old(v.View()), v.View(), ch, needed)
    ensures v.reliable && Mirrored(old(v.disk), v.g) ==> Mirrored(v.disk, v.g)
  {
    hide FatOf, DataOf, Coherent, InfoMatches, Chain, DirSlots, Extend, Allocate, Searching, AllocSlots, Mirrored,
         FindRun, NonZero;
    ghost var before := v.View();
    ghost var slots := Slots(v, ch);
    OnDiskWhole(v, ch);
    VolumeTerms(v, ch);
    ChainFits(before, ch);
    SearchedAll(slots, run, ended, needed);
    AllocSlotsAppends(before, ch, needed);
    ChainMember(v.Fat(), ch, v.g.clusters + 1, |ch| - 1);
    ok, cluster := v.AppendDirectoryCluster(last);
    if ok {
      ExtendLast(Allocate(before).0, ch, cluster);
      AppendGrows(before, ch);
      VolumeTerms(v, ch + [cluster]);
      OnDiskWhole(v, ch + [cluster]);
      OneMore(|ch|, 16 * v.g.spc);
      SearchingGrown(slots, Slots(v, ch + [cluster]), run, ended, needed);
    }
  }

  ghost predicate Allocated(before: Vol, after: Vol, ch: seq<nat>, now: seq<nat>, needed: nat, p: Option<nat>) {
    DirChain(before, ch) && needed > 0 && (after, now, p) == AllocSlots(before, ch, needed)
  }

  /** The search over the present directory has the outcome it had over the first one. */
  ghost predicate SameAlloc(before: Vol, cur: Vol, ch: seq<nat>, now: seq<nat>, needed: nat) {
    && DirChain(before, ch) && DirChain(cur, now) && needed > 0
    && AllocSlots(cur, now, needed) == AllocSlots(before, ch, needed)
  }

  lemma RoomFound(before: Vol, cur: Vol, ch: seq<nat>, now: seq<nat>, needed: nat, p: nat)
    requires SameAlloc(before, cur, ch, now, needed) && DirFits(cur, now)
             && FirstRun(DirSlots(cur.data, now), needed, p)
    ensures Allocated(before, cur, ch, now, needed, Some(p))
  {
    hide AllocSlots, DirSlots, FirstRun;
    AllocSlotsFound(cur, now, needed, p);
  }

  lemma GrewOn(before: Vol, was: Vol, cur: Vol, ch: seq<nat>, now: seq<nat>, c: nat, needed: nat, at: nat, run: nat)
    requires SameAlloc(before, was, ch, now, needed) && GrownForRoom(was, cur, now, c, needed, at, run)
    ensures SameAlloc(before, cur, ch, now + [c], needed) && DirFits(cur, now + [c]) && |cur.fat| == |was.fat|
            && NonZero(cur.fat) > NonZero(was.fat)
    ensures Searching(DirSlots(cur.data, now + [c]), at, run, true, needed)
  {
  }

  lemma SearchingStart(slots: seq<Slot>, needed: nat)
    requires needed > 0
    ensures Searching(slots, 0, 0, false, needed)
  {
  }

  /** allocate_directory_slots: where the run starts, and the clusters walked, the new ones included. */
  method AllocateDirectorySlots(v: Volume, dir: nat, needed: nat, ghost ch: seq<nat>)
    returns (p: Option<nat>, clusters: seq<nat>, ghost now: seq<nat>)
    requires v.Valid() && v.OnDisk(ch) && ch[0] == dir && 0 < needed
    modifies v
    ensures v.Valid() && (p.Some? || v.reliable ==> Allocated(old(v.View()), v.View(), ch, now, needed, p))
    ensures p.Some? ==> v.OnDisk(now) && clusters <= now && p.value + needed <= |clusters| * (16 * v.g.spc)
    ensures v.reliable && Mirrored(old(v.disk), v.g) ==> Mirrored(v.disk, v.g)
  {
    hide FatOf, DataOf, Coherent, InfoMatches, Chain, DirSlots, Searching, AllocSlots, FirstRun, NonZero, GrownForRoom,
         NoRoom, SameAlloc, Mirrored;
    now, clusters, p := ch, [], None;
    var per, base: nat := 16 * v.g.spc, 0;
    var cluster, run: nat, ended := dir, 0, false;
    ghost var before := v.View();
    StartAlloc(v, ch, needed);
    while true
      invariant v.reliable && Mirrored(old(v.disk), v.g) ==> Mirrored(v.disk, v.g)
      invariant v.Valid() && v.OnDisk(now) && |clusters| < |now| && clusters <= now && cluster == now[|clusters|]
                && p.None?
      invariant base == |clusters| * per && Searching(Slots(v, now), base, run, ended, needed)
      invariant SameAlloc(before, v.View(), ch, now, needed)
      decreases |v.View().fat| - NonZero(v.View().fat), |now| - |clusters|
    {
      ghost var k := |clusters|;
      var ok;
      ok, run, ended, p := SearchCluster(v, cluster, base, run, ended, needed, now, k);
      if !ok { return None, clusters, now; }
      clusters := clusters + [cluster];
      OneMore(k, per);
      base := base + per;
      if p.Some? {
        FoundHere(before, v, ch, now, needed, p.value);
        return;
      }
      var next;
      ok, next := NextCluster(v, cluster, now, k);
      if !ok { return; }
      if !IsDataCluster(next) {
        OnDiskWhole(v, now);
        VolumeTerms(v, now);
        ghost var was := v.View();
        ok, next := AppendForRoom(v, cluster, needed, base, run, ended, now);
        if !ok {
          if v.reliable { GaveUp(before, was, v.View(), ch, now, needed); }
          return;
        }
        GrewOn(before, was, v.View(), ch, now, next, needed, base, run);
        now := now + [next];
        ended := true;
      }
      cluster := next;
    }
  }

  lemma GaveUp(before: Vol, was: Vol, cur: Vol, ch: seq<nat>, now: seq<nat>, needed: nat)
    requires SameAlloc(before, was, ch, now, needed) && NoRoom(was, cur, now, needed)
    ensures Allocated(before, cur, ch, now, needed, None)
  {
    hide AllocSlots;
  }

  lemma StartAlloc(v: Volume, ch: seq<nat>, needed: nat)
    requires v.Valid() && v.OnDisk(ch) && needed > 0
    ensures |ch| > 0 && SameAlloc(v.View(), v.View(), ch, ch, needed) && Searching(Slots(v, ch), 0, 0, false, needed)
  {
    hide FatOf, DataOf, Coherent, InfoMatches, Chain, DirSlots, Searching, AllocSlots;
    OnDiskWhole(v, ch);
    VolumeTerms(v, ch);
    SearchingStart(Slots(v, ch), needed);
  }

  lemma FoundHere(before: Vol, v: Volume, ch: seq<nat>, now: seq<nat>, needed: nat, p: nat)
    requires v.Valid() && v.OnDisk(now) && SameAlloc(before, v.View(), ch, now, needed)
             && FirstRun(Slots(v, now), needed, p)
    ensures Allocated(before, v.View(), ch, now, needed, Some(p))
  {
    hide FatOf, DataOf, Coherent, InfoMatches, Chain, DirSlots, FirstRun, AllocSlots;
    VolumeTerms(v, now);
    ChainFits(v.View(), now);
    RoomFound(before, v.View(), ch, now, needed, p);
  }

  // ------------------------------------------------------------- slot writes

  /** Clusters of the volume, all different. */
  ghost predicate Walked(v: Volume, clusters: seq<nat>, i: nat)
    requires v.Valid()
    reads v
  {
    && (forall k :: 0 <= k < |clusters| ==> 2 <= clusters[k] <= v.g.clusters + 1)
    && i < |clusters| * (16 * v.g.spc)
  }

  lemma WalkedWhole(v: Volume, clusters: seq<nat>, i: nat)
    requires v.Valid() && Walked(v, clusters, i)
    ensures Whole(v.Data(), clusters, 32 * (16 * v.g.spc)) && 16 * v.g.spc > 0
  {
    hide FatOf, DataOf, Coherent, InfoMatches;
  }

  /** Slot y of a cluster: sector y / 16, byte 32 * (y % 16) of it. */
  lemma SlotInSector(y: nat, spc: nat)
    requires y < 16 * spc
    ensures y / 16 < spc && y / 16 * 512 + 32 * (y % 16) == 32 * y && 32 * (y % 16) + 32 <= 512
  {
  }

  /** write_entry_bytes of a whole slot. */
  method WriteSlot(v: Volume, clusters: seq<nat>, i: nat, s: Slot) returns (ok: bool)
    requires v.Valid() && Walked(v, clusters, i)
    modifies v`disk
    ensures v.Valid() && (v.reliable ==> ok) && v.Fat() == old(v.Fat())
    ensures Whole(old(v.Data()), clusters, 32 * (16 * v.g.spc))
    ensures ok ==> v.Data() == PutSlot(old(v.Data()), clusters, 16 * v.g.spc, i, s)
    ensures v.reliable && Mirrored(old(v.disk), v.g) ==> Mirrored(v.disk, v.g)
  {
    hide FatOf, DataOf, Coherent, InfoMatches, Mirrored, PutBytes;
    WalkedWhole(v, clusters, i);
    var per := 16 * v.g.spc;
    SlotPlace(i, per, |clusters|);
    var c, y := clusters[i / per], i % per;
    SlotInSector(y, v.g.spc);
    ok := v.WriteEntryBytes(c, y / 16, 32 * (y % 16), s);
  }

  lemma MarkedBytes(b: seq<Byte>, y: nat)
    requires 32 * y + 32 <= |b|
    ensures PutBytes(b, 32 * y, [0xE5]) == PutBytes(b, 32 * y, MarkUnused(SlotAt(b, y)))
  {
    var l, r := PutBytes(b, 32 * y, [0xE5]), PutBytes(b, 32 * y, MarkUnused(SlotAt(b, y)));
    forall k | 0 <= k < |b| ensures l[k] == r[k] { }
  }

  /** mark_entry_unused. */
  method MarkSlot(v: Volume, clusters: seq<nat>, i: nat, ghost s: Slot) returns (ok: bool)
    requires v.Valid() && Walked(v, clusters, i)
    requires Whole(v.Data(), clusters, 32 * (16 * v.g.spc)) && i < |DirSlots(v.Data(), clusters)|
             && DirSlots(v.Data(), clusters)[i] == s
    modifies v`disk
    ensures v.Valid() && (v.reliable ==> ok) && v.Fat() == old(v.Fat())
    ensures ok ==> v.Data() == PutSlot(old(v.Data()), clusters, 16 * v.g.spc, i, MarkUnused(s))
    ensures v.reliable && Mirrored(old(v.disk), v.g) ==> Mirrored(v.disk, v.g)
  {
    hide FatOf, DataOf, Coherent, InfoMatches, Mirrored, PutBytes, DirSlots, MarkUnused;
    WalkedWhole(v, clusters, i);
    var per := 16 * v.g.spc;
    SlotPlace(i, per, |clusters|);
    var c, y := clusters[i / per], i % per;
    SlotInSector(y, v.g.spc);
    SlotOf(v.Data(), clusters, per, i / per, y);
    MarkedBytes(v.Data()[c], y);
    ok := v.WriteEntryBytes(c, y / 16, 32 * (y % 16), [0xE5]);
  }

  /** The clusters walked are the first of the chain, so a slot number means the same in both. */
  lemma PrefixPut(data: seq<seq<Byte>>, clusters: seq<nat>, ch: seq<nat>, per: nat, i: nat, s: Slot)
    requires clusters <= ch && Whole(data, ch, 32 * per) && per > 0 && i < |clusters| * per
    ensures Whole(data, clusters, 32 * per) && i < |ch| * per
    ensures PutSlot(data, clusters, per, i, s) == PutSlot(data, ch, per, i, s)
  {
    MulMono(|clusters|, |ch|, per);
    SlotPlace(i, per, |clusters|);
  }

  lemma PrefixSlot(data: seq<seq<Byte>>, clusters: seq<nat>, ch: seq<nat>, per: nat, i: nat)
    requires clusters <= ch && Whole(data, ch, 32 * per) && per > 0 && i < |clusters| * per
    ensures Whole(data, clusters, 32 * per) && i < |DirSlots(data, ch)| && i < |DirSlots(data, clusters)|
    ensures DirSlots(data, clusters)[i] == DirSlots(data, ch)[i]
  {
    hide DirSlots;
    SlotPlace(i, per, |clusters|);
    SlotOf(data, clusters, per, i / per, i % per);
    SlotOf(data, ch, per, i / per, i % per);
  }

  ghost predicate InWalk(ws: seq<SlotWrite>, n: nat) { forall k :: 0 <= k < |ws| ==> ws[k].at < n }

  /** A walked prefix of a chain of the volume. */
  lemma PrefixWalked(v: Volume, clusters: seq<nat>, ch: seq<nat>, i: nat)
    requires v.Valid() && v.OnDisk(ch) && clusters <= ch && i < |clusters| * (16 * v.g.spc)
    ensures Walked(v, clusters, i) && Whole(v.Data(), ch, 32 * (16 * v.g.spc)) && 16 * v.g.spc > 0
    ensures DirFits(v.View(), ch) && Per(v.View()) == 16 * v.g.spc && i < |ch| * Per(v.View())
  {
    hide FatOf, DataOf, Coherent, InfoMatches, DirSlots;
    OnDiskWhole(v, ch);
    VolumeTerms(v, ch);
    ChainFits(v.View(), ch);
    MulMono(|clusters|, |ch|, 16 * v.g.spc);
    forall k | 0 <= k < |clusters| ensures 2 <= clusters[k] <= v.g.clusters + 1 {
      ChainMember(v.Fat(), ch, v.g.clusters + 1, k);
    }
  }

  /** One slot write of the volume is SetSlot. */
  method PutSlotAtPlace(v: Volume, clusters: seq<nat>, i: nat, s: Slot, ghost ch: seq<nat>) returns (ok: bool)
    requires v.Valid() && v.OnDisk(ch) && clusters <= ch && i < |clusters| * (16 * v.g.spc)
    modifies v`disk
    ensures v.Valid() && v.OnDisk(ch) && (v.reliable ==> ok) && DirFits(old(v.View()), ch)
            && i < |ch| * Per(old(v.View()))
    ensures ok ==> v.View() == SetSlot(old(v.View()), ch, i, s)
    ensures v.reliable && Mirrored(old(v.disk), v.g) ==> Mirrored(v.disk, v.g)
  {
    hide FatOf, DataOf, Coherent, InfoMatches, DirSlots, Chain, PutSlot, Mirrored;
    PrefixWalked(v, clusters, ch, i);
    PrefixPut(v.Data(), clusters, ch, 16 * v.g.spc, i, s);
    ok := WriteSlot(v, clusters, i, s);
  }

  method MarkAtPlace(v: Volume, clusters: seq<nat>, i: nat, ghost s: Slot, ghost ch: seq<nat>) returns (ok: bool)
    requires v.Valid() && v.OnDisk(ch) && clusters <= ch && i < |clusters| * (16 * v.g.spc)
    requires i < |Slots(v, ch)| && Slots(v, ch)[i] == s
    modifies v`disk
    ensures v.Valid() && v.OnDisk(ch) && (v.reliable ==> ok) && DirFits(old(v.View()), ch)
            && i < |ch| * Per(old(v.View()))
    ensures ok ==> v.View() == SetSlot(old(v.View()), ch, i, MarkUnused(s))
    ensures v.reliable && Mirrored(old(v.disk), v.g) ==> Mirrored(v.disk, v.g)
  {
    hide FatOf, DataOf, Coherent, InfoMatches, DirSlots, Chain, PutSlot, MarkUnused, Mirrored;
    PrefixWalked(v, clusters, ch, i);
    PrefixSlot(v.Data(), clusters, ch, 16 * v.g.spc, i);
    PrefixPut(v.Data(), clusters, ch, 16 * v.g.spc, i, MarkUnused(s));
    ok := MarkSlot(v, clusters, i, s);
  }

  /** Slot writes one after the other. */
  method WriteSlots(v: Volume, clusters: seq<nat>, ws: seq<SlotWrite>, ghost ch: seq<nat>) returns (ok: bool)
    requires v.Valid() && v.OnDisk(ch) && clusters <= ch && InWalk(ws, |clusters| * (16 * v.g.spc))
    modifies v`disk
    ensures v.Valid() && (v.reliable ==> ok) && (ok ==> v.View() == Touch(old(v.View()), ch, ws))
    ensures v.reliable && Mirrored(old(v.disk), v.g) ==> Mirrored(v.disk, v.g)
  {
    hide FatOf, DataOf, Coherent, InfoMatches, DirSlots, Chain, SetSlot, Mirrored;
    ghost var before := v.View();
    WritesFitWalk(v, clusters, ws, ch);
    var k: nat := 0;
    while k < |ws|
      invariant v.reliable && Mirrored(old(v.disk), v.g) ==> Mirrored(v.disk, v.g)
      invariant k <= |ws| && v.Valid() && v.OnDisk(ch) && v.View() == SetSlots(before, ch, ws[..k])
    {
      ok := PutSlotAtPlace(v, clusters, ws[k].at, ws[k].slot, ch);
      if !ok { return; }
      assert ws[..k + 1][..k] == ws[..k];
      k := k + 1;
    }
    assert ws[..k] == ws;
    ok := true;
  }

  lemma WritesFitWalk(v: Volume, clusters: seq<nat>, ws: seq<SlotWrite>, ch: seq<nat>)
    requires v.Valid() && v.OnDisk(ch) && clusters <= ch && InWalk(ws, |clusters| * (16 * v.g.spc))
    ensures DirFits(v.View(), ch) && WritesFit(ws, |ch| * Per(v.View()))
  {
    hide FatOf, DataOf, Coherent, InfoMatches, Chain;
    VolumeTerms(v, ch);
    ChainFits(v.View(), ch);
    MulMono(|clusters|, |ch|, 16 * v.g.spc);
  }

  /** The k-th slot of an entry, the short one first. */
  function PlaceOf(e: Entry, k: nat): nat
    requires k <= |e.lfns|
  {
    if k == 0 then e.at else e.lfns[k - 1]
  }

  /** The writes that mark the slots of an entry unused. */
  ghost predicate Marking(slots: seq<Slot>, e: Entry, ws: seq<SlotWrite>) {
    && |ws| == |e.lfns| + 1 && DistinctPlaces(ws)
    && (forall k :: 0 <= k < |ws| ==>
          ws[k].at == PlaceOf(e, k) && ws[k].at < |slots| && ws[k].slot == MarkUnused(slots[ws[k].at]))
  }

  method MarkNext(v: Volume, clusters: seq<nat>, i: nat, ghost k: nat, ghost ws: seq<SlotWrite>, ghost e: Entry,
                  ghost before: Vol, ghost ch: seq<nat>)
    returns (ok: bool)
    requires v.Valid() && v.OnDisk(ch) && clusters <= ch && InWalk(ws, |clusters| * (16 * v.g.spc)) && k < |ws|
             && ws[k].at == i
    requires DirFits(before, ch) && WritesFit(ws, |ch| * Per(before)) && Marking(DirSlots(before.data, ch), e, ws)
    requires v.View() == SetSlots(before, ch, ws[..k])
    modifies v`disk
    ensures v.Valid() && v.OnDisk(ch) && (v.reliable ==> ok) && (ok ==> v.View() == SetSlots(before, ch, ws[..k + 1]))
    ensures v.reliable && Mirrored(old(v.disk), v.g) ==> Mirrored(v.disk, v.g)
  {
    hide FatOf, DataOf, Coherent, InfoMatches, DirSlots, Chain, SetSlot, MarkUnused, Mirrored;
    ghost var slots := DirSlots(before.data, ch);
    StillThere(before, ch, slots, ws, k);
    ok := MarkAtPlace(v, clusters, i, slots[i], ch);
    assert ws[..k + 1][..k] == ws[..k];
  }

  /** The slots of an entry marked unused, the short one first. */
  method MarkSlots(v: Volume, clusters: seq<nat>, e: Entry, ghost ch: seq<nat>) returns (ok: bool)
    requires v.Valid() && v.OnDisk(ch) && clusters <= ch && e.at < |clusters| * (16 * v.g.spc)
             && Shaped(Slots(v, ch), 0, e)
    modifies v`disk
    ensures v.Valid() && (v.reliable ==> ok)
    ensures (forall k :: 0 <= k < |e.lfns| ==> e.lfns[k] < |old(Slots(v, ch))|) && e.at < |old(Slots(v, ch))|
    ensures ok ==> v.View() == Touch(old(v.View()), ch, MarkWrites(old(Slots(v, ch)), e))
    ensures v.reliable && Mirrored(old(v.disk), v.g) ==> Mirrored(v.disk, v.g)
  {
    hide FatOf, DataOf, Coherent, InfoMatches, DirSlots, Chain, IsShort, IsLfn, MarkUnused, MarkWrites, InWalk,
         DistinctPlaces, Mirrored;
    ghost var before, slots := v.View(), Slots(v, ch);
    MarkPlaces(slots, e, |clusters| * (16 * v.g.spc));
    ghost var ws := MarkWrites(slots, e);
    WritesFitWalk(v, clusters, ws, ch);
    assert ws[..0] == [];
    var k: nat := 0;
    while k <= |e.lfns|
      invariant v.reliable && Mirrored(old(v.disk), v.g) ==> Mirrored(v.disk, v.g)
      invariant k <= |e.lfns| + 1 && v.Valid() && v.OnDisk(ch) && v.View() == SetSlots(before, ch, ws[..k])
    {
      ok := MarkNext(v, clusters, PlaceOf(e, k), k, ws, e, before, ch);
      if !ok { return; }
      k := k + 1;
    }
    assert ws[..k] == ws;
    ok := true;
  }

  lemma SetSlotIs(v: Vol, w: Vol, ch: seq<nat>, i: nat, s: Slot)
    requires DirFits(v, ch) && i < |ch| * Per(v) && w == v.(data := PutSlot(v.data, ch, Per(v), i, s))
    ensures w == SetSlot(v, ch, i, s)
  {
  }

  lemma MarkPlaces(slots: seq<Slot>, e: Entry, n: nat)
    requires Shaped(slots, 0, e) && e.at < n
    ensures (forall k :: 0 <= k < |e.lfns| ==> e.lfns[k] < |slots|) && InWalk(MarkWrites(slots, e), n)
    ensures Marking(slots, e, MarkWrites(slots, e))
  {
    hide IsShort, IsLfn, MarkUnused;
    MarkReaches(slots, e);
  }

  /** A slot not yet written is as it was. */
  lemma StillThere(before: Vol, ch: seq<nat>, slots: seq<Slot>, ws: seq<SlotWrite>, k: nat)
    requires DirFits(before, ch) && WritesFit(ws, |ch| * Per(before)) && slots == DirSlots(before.data, ch)
             && DistinctPlaces(ws) && k < |ws|
    ensures |DirSlots(SetSlots(before, ch, ws[..k]).data, ch)| == |slots| == |ch| * Per(before)
    ensures DirSlots(SetSlots(before, ch, ws[..k]).data, ch)[ws[k].at] == slots[ws[k].at]
  {
    hide DirSlots, SetSlots;
    SetSlotsSlots(before, ch, ws[..k]);
    UpdateAllMiss(slots, ws[..k], ws[k].at);
  }

  // ---------------------------------------------------------------- look-ups

  /** find_in_directory behind the resolver: the first entry of that name, and the clusters walked. */
  method FindInDirectory(v: Volume, dir: nat, name: Name, ghost ch: seq<nat>)
    returns (found: Option<Entry>, clusters: seq<nat>)
    requires v.Valid() && v.OnDisk(ch) && ch[0] == dir
    modifies v`cacheValid, v`cacheFirst, v`cacheCount, v`cache
    ensures v.Valid() && v.OnDisk(ch)
    ensures found.Some? || v.reliable ==> found == Lookup(Scan(Slots(v, ch), 0, []), name)
    ensures found.Some? ==> clusters <= ch && found.value.at < |clusters| * (16 * v.g.spc)
  {
    hide FatOf, DataOf, Coherent, InfoMatches, Chain, DirSlots, Scan;
    clusters := [];
    LookupDot(Scan(Slots(v, ch), 0, []));
    if name == [DOT] { return None, []; }
    var ok, entries;
    ok, entries, clusters := ScanDirectory(v, dir, ch);
    if !ok { return None, clusters; }
    var k: nat := 0;
    while k < |entries|
      invariant k <= |entries| && Lookup(entries, name) == Lookup(entries[k..], name)
    {
      if entries[k].name == name { return Some(entries[k]), clusters; }
      assert entries[k..][1..] == entries[k + 1..];
      k := k + 1;
    }
    return None, clusters;
  }

  lemma LookupDot(es: seq<Entry>)
    ensures Lookup(es, [DOT]) == None
  {
  }

  /** sfn_exists. */
  method SfnExists(v: Volume, dir: nat, alias: Name, ghost ch: seq<nat>) returns (taken: bool)
    requires v.Valid() && v.OnDisk(ch) && ch[0] == dir
    modifies v`cacheValid, v`cacheFirst, v`cacheCount, v`cache
    ensures v.Valid() && v.OnDisk(ch) && (v.reliable ==> taken == Taken(Scan(Slots(v, ch), 0, []), alias))
  {
    hide FatOf, DataOf, Coherent, InfoMatches, Chain, DirSlots, Scan;
    var ok, entries, clusters := ScanDirectory(v, dir, ch);
    if !ok { return false; }
    var k: nat := 0;
    while k < |entries|
      invariant k <= |entries| && forall i :: 0 <= i < k ==> entries[i].short[..11] != alias
    {
      if entries[k].short[..11] == alias { return true; }
      k := k + 1;
    }
    return false;
  }

  /** generate_unique_sfn: the directory is scanned for every candidate. */
  method GenerateUniqueSfn(v: Volume, dir: nat, name: Name, ghost ch: seq<nat>) returns (alias: Option<Name>)
    requires v.Valid() && v.OnDisk(ch) && ch[0] == dir
    modifies v`cacheValid, v`cacheFirst, v`cacheCount, v`cache
    ensures v.Valid() && v.OnDisk(ch) && (alias.Some? ==> |alias.value| == 11)
    ensures v.reliable ==> alias == FirstAlias(Scan(Slots(v, ch), 0, []), name, 1)
  {
    hide FatOf, DataOf, Coherent, InfoMatches, Chain, DirSlots, Scan, Alias, Taken;
    ghost var es := Scan(Slots(v, ch), 0, []);
    var u: nat := 1;
    while u < 1000
      invariant 1 <= u <= 1000 && v.Valid() && v.OnDisk(ch) && Scan(Slots(v, ch), 0, []) == es
      invariant v.reliable ==> FirstAlias(es, name, 1) == FirstAlias(es, name, u)
    {
      var candidate := Alias(name, u);
      var taken := SfnExists(v, dir, candidate, ch);
      if !taken { return Some(candidate); }
      u := u + 1;
    }
    return None;
  }

  /** build_file_entry: the eleven name bytes. */
  method BuildAlias(v: Volume, dir: nat, name: Name, ghost ch: seq<nat>) returns (alias: Option<Name>)
    requires v.Valid() && v.OnDisk(ch) && ch[0] == dir && |name| < LEAF_CAPACITY
    modifies v`cacheValid, v`cacheFirst, v`cacheCount, v`cache
    ensures v.Valid() && v.OnDisk(ch)
    ensures alias.Some? ==> |alias.value| == 11 && (ValidSfn(name) || 1 <= Pieces(name) <= MAX_PIECES)
    ensures v.reliable ==> alias == AliasFor(Scan(Slots(v, ch), 0, []), name)
  {
    hide FatOf, DataOf, Coherent, InfoMatches, Chain, DirSlots, Scan, ValidSfn, FirstAlias, EncodeSfn;
    if ValidSfn(name) { return Some(EncodeSfn(name)); }
    alias := GenerateUniqueSfn(v, dir, name, ch);
    if Pieces(name) == 0 || Pieces(name) > MAX_PIECES { return None; }
  }

  // ---------------------------------------------------------------- write_file

  lemma FirstBound(s: Slot)
    ensures FirstOfSlot(s) < U32
  {
  }

  /** The directory's slots in the two ways of speaking. */
  lemma SameView(v: Volume, chains: Chains, dir: nat)
    requires v.Valid() && Inv(Fs(v.View(), chains)) && DirAt(dir) in chains
    ensures |chains[DirAt(dir)]| > 0 && chains[DirAt(dir)][0] == dir && v.OnDisk(chains[DirAt(dir)])
    ensures Slots(v, chains[DirAt(dir)]) == SlotsOf(Fs(v.View(), chains), dir)
    ensures Entries(Fs(v.View(), chains), dir) == Scan(Slots(v, chains[DirAt(dir)]), 0, [])
  {
    hide FatOf, DataOf, Coherent, InfoMatches, Chain, DirSlots, Scan, WellFormed, FilesOk, OwnerOk;
    assert DirOk(Fs(v.View(), chains), dir);
    SoundFits(v.View(), chains, DirAt(dir));
    VolumeTerms(v, chains[DirAt(dir)]);
  }

  /** write_file over an existing file. */
  method OverwriteFile(v: Volume, dir: nat, e: Entry, clusters: seq<nat>, data: seq<Byte>, ghost chains: Chains)
    returns (ok: bool, ghost after: Chains)
    requires v.Valid() && Inv(Fs(v.View(), chains)) && DirAt(dir) in chains
    requires e in Entries(Fs(v.View(), chains), dir) && !IsDir(e.short)
    requires clusters <= chains[DirAt(dir)] && e.at < |clusters| * (16 * v.g.spc)
    modifies v
    ensures v.Valid()
    ensures v.reliable ==> (Fs(v.View(), after), ok) == Overwrite(Fs(old(v.View()), chains), dir, e, data)
    ensures v.reliable && Mirrored(old(v.disk), v.g) ==> Mirrored(v.disk, v.g)
  {
    hide FatOf, DataOf, Coherent, InfoMatches, Chain, DirSlots, Scan, DirOk, OwnerOk, Sound, FreeChain, WriteData,
         UpdatedSlot, EmptiedSlot, FirstOfSlot, Entries, Mirrored, CaseInfo;
    ghost var f, ch := Fs(v.View(), chains), chains[DirAt(dir)];
    SameView(v, chains, dir);
    PrefixWalked(v, clusters, ch, e.at);
    FreedKeeps(f, f.vol, dir, e);
    FreedShape(f, dir, e);
    FirstBound(e.short);
    after := chains;
    var first := FirstOfSlot(e.short);
    FreeNoChain(v.View(), first);
    if IsDataCluster(first) {
      ok := v.FreeClusterChain(first);
      if !ok { return; }
    }
    assert v.View() == FreedVol(f, e);
    ghost var (w, cs, good) := WriteData(FreedVol(f, e), data);
    OverwriteStored(f, dir, e, data, w, cs, good);
    after := Stored(chains, FileAt(dir, e.at), cs);
    var newFirst;
    ok, newFirst := v.WriteFileData(data);
    var slot := if ok then UpdatedSlot(e.short, CaseInfo(e.name), newFirst, |data|) else EmptiedSlot(e.short);
    StillWalked(v, clusters, e.at);
    ghost var stored := v.View();
    var put := WriteSlot(v, clusters, e.at, slot);
    if v.reliable {
      KeptDir(f.vol, chains, after, stored, dir, FileAt(dir, e.at), cs);
      OneSlotTouched(stored, v.View(), clusters, ch, e.at, slot);
    }
    ok := ok && put;
  }

  lemma FreeNoChain(v: Vol, first: nat)
    ensures !IsDataCluster(first) ==> FreeChain(v, first) == (v, true)
  {
  }

  lemma StillWalked(v: Volume, clusters: seq<nat>, i: nat)
    requires v.Valid() && (forall k :: 0 <= k < |clusters| ==> 2 <= clusters[k] <= v.g.clusters + 1)
             && i < |clusters| * (16 * v.g.spc)
    ensures Walked(v, clusters, i)
  {
  }

  /** The directory's chain is the same, and still fits, after the data is stored. */
  lemma KeptDir(v: Vol, chains: Chains, after: Chains, w: Vol, dir: nat, o: Owner, cs: seq<nat>)
    requires DirAt(dir) in chains && o.FileAt? && after == Stored(chains, o, cs) && Sound(w, after)
    ensures DirAt(dir) in after && after[DirAt(dir)] == chains[DirAt(dir)] && DirFits(w, chains[DirAt(dir)])
  {
    SoundFits(w, after, DirAt(dir));
  }

  lemma OneSlotTouched(w: Vol, u: Vol, clusters: seq<nat>, ch: seq<nat>, i: nat, s: Slot)
    requires DirFits(w, ch) && clusters <= ch && i < |clusters| * Per(w) && Whole(w.data, clusters, 32 * Per(w))
    requires u == w.(data := PutSlot(w.data, clusters, Per(w), i, s))
    ensures u == Touch(w, ch, [SlotWrite(i, s)])
  {
    hide DirSlots;
    PrefixPut(w.data, clusters, ch, Per(w), i, s);
    var ws := [SlotWrite(i, s)];
    assert ws[..0] == [];
    assert SetSlots(w, ch, []) == w;
    SetSlotIs(w, u, ch, i, s);
  }

  /** write_file under a name that is not there. */
  method CreateFile(v: Volume, dir: nat, name: Name, data: seq<Byte>, ghost chains: Chains)
    returns (ok: bool, ghost after: Chains)
    requires v.Valid() && Inv(Fs(v.View(), chains)) && DirAt(dir) in chains
    modifies v
    ensures v.Valid()
    ensures v.reliable ==> (Fs(v.View(), after), ok) == Create(Fs(old(v.View()), chains), dir, name, data)
    ensures v.reliable && Mirrored(old(v.disk), v.g) ==> Mirrored(v.disk, v.g)
  {
    hide FatOf, DataOf, Coherent, InfoMatches, Chain, DirSlots, Scan, DirOk, OwnerOk, Sound, WriteData, EntryFor,
         AliasFor, SlotsFor, AllocSlots, Mirrored, NewWrites, ValidSfn, Touch, SlotsOf;
    ghost var f, ch := Fs(v.View(), chains), chains[DirAt(dir)];
    SameView(v, chains, dir);
    after := chains;
    LongNamesRefused(Entries(f, dir), name);
    if |name| >= LEAF_CAPACITY { return false, chains; }
    var alias := BuildAlias(v, dir, name, ch);
    if alias.None? { return false, chains; }
    SoundFits(f.vol, chains, DirAt(dir));
    var p, clusters;
    ghost var now;
    p, clusters, now := AllocateDirectorySlots(v, dir, SlotsFor(name), ch);
    after := chains[DirAt(dir) := now];
    if p.None? { return false, after; }
    ghost var u := v.View();
    WalkIsInRange(v, clusters, now);
    RoomIsReady(f, dir, name, u, now, p);
    var first;
    ok, first := v.WriteFileData(data);
    if !ok { return; }
    ghost var (w, cs, good) := WriteData(u, data);
    after := Stored(after, FileAt(dir, p.value + SlotsFor(name) - 1), cs);
    StoredFirst(f, dir, name, u, now, p, data, w, cs);
    var news := EntryFor(name, alias.value, first, |data|);
    EntryForCount(name, alias.value, first, |data|);
    NewInWalk(p.value, news, |clusters| * (16 * v.g.spc));
    VolumeTerms(v, now);
    ok := WriteSlots(v, clusters, NewWrites(p.value, news), now);
  }

  /** No alias for a leaf name that does not fit its buffer. */
  lemma LongNamesRefused(entries: seq<Entry>, name: Name)
    ensures |name| >= LEAF_CAPACITY ==> AliasFor(entries, name).None?
  {
  }

  lemma WalkIsInRange(v: Volume, clusters: seq<nat>, ch: seq<nat>)
    requires v.Valid() && v.OnDisk(ch) && clusters <= ch
    ensures forall k :: 0 <= k < |clusters| ==> 2 <= clusters[k] <= v.g.clusters + 1
  {
    hide FatOf, DataOf, Coherent, InfoMatches;
  }

  lemma NewInWalk(p: nat, news: seq<Slot>, n: nat)
    requires |news| > 0 && p + |news| <= n
    ensures InWalk(NewWrites(p, news), n)
  {
  }

  /** After room was found the volume is sound, with the directory's longer chain. */
  lemma RoomIsReady(f: Fs, dir: nat, name: Name, u: Vol, now: seq<nat>, p: Option<nat>)
    requires Inv(f) && DirAt(dir) in f.chains && Allocated(f.vol, u, f.chains[DirAt(dir)], now, SlotsFor(name), p)
             && p.Some?
    ensures Sound(u, f.chains[DirAt(dir) := now]) && Shape(u)
    ensures FileAt(dir, p.value + SlotsFor(name) - 1) !in f.chains
  {
    hide AllocSlots, Sound, DirOk, OwnerOk, Scan, Chain, DirSlots, FirstRun, Preserves;
    AllocSlotsKeeps(f.vol, f.chains, DirAt(dir), SlotsFor(name));
    SoundFits(u, f.chains[DirAt(dir) := now], DirAt(dir));
    RoomCommits(f, dir, SlotsFor(name), u, now, p, u, 0);
    NoChainThere(Fs(u, f.chains[DirAt(dir) := now]), dir, p.value, SlotsFor(name));
  }

  lemma StoredFirst(f: Fs, dir: nat, name: Name, u: Vol, now: seq<nat>, p: Option<nat>, data: seq<Byte>, w: Vol,
                    cs: seq<nat>)
    requires Sound(u, f.chains[DirAt(dir) := now]) && Shape(u) && p.Some? && (w, cs, true) == WriteData(u, data)
    requires FileAt(dir, p.value + SlotsFor(name) - 1) !in f.chains
    ensures DirChain(w, now)
  {
    hide WriteData, Sound, Chain;
    var o, roomy := FileAt(dir, p.value + SlotsFor(name) - 1), f.chains[DirAt(dir) := now];
    StoreKeeps(u, roomy, o, data);
    SoundFits(w, Stored(roomy, o, cs), DirAt(dir));
  }

  /**
   write_file for a resolved directory and leaf name. Without device errors the outcome and the
   volume are exactly those of FatHistory.Step.
   */
  method WriteFile(v: Volume, dir: nat, name: Name, data: seq<Byte>, ghost chains: Chains)
    returns (ok: bool, ghost after: Chains)
    requires v.Valid() && Inv(Fs(v.View(), chains)) && DirAt(dir) in chains
    modifies v
    ensures v.Valid()
    ensures v.reliable ==> (Fs(v.View(), after), ok) == Step(Fs(old(v.View()), chains), Op.WriteFile(dir, name, data))
    ensures v.reliable && Mirrored(old(v.disk), v.g) ==> Mirrored(v.disk, v.g)
  {
    hide FatOf, DataOf, Coherent, InfoMatches, Chain, DirSlots, Scan, DirOk, OwnerOk, Sound, Create, Overwrite, SlotsOf,
         Mirrored;
    ghost var ch := chains[DirAt(dir)];
    SameView(v, chains, dir);
    var found, clusters := FindInDirectory(v, dir, name, ch);
    if found.Some? {
      if IsDir(found.value.short) { return false, chains; }
      ok, after := OverwriteFile(v, dir, found.value, clusters, data, chains);
    } else {
      ok, after := CreateFile(v, dir, name, data, chains);
    }
  }

  /** remove_file for a resolved directory and leaf name. */
  method RemoveFile(v: Volume, dir: nat, name: Name, ghost chains: Chains) returns (ok: bool, ghost after: Chains)
    requires v.Valid() && Inv(Fs(v.View(), chains)) && DirAt(dir) in chains
    modifies v
    ensures v.Valid()
    ensures v.reliable ==> (Fs(v.View(), after), ok) == Step(Fs(old(v.View()), chains), Op.RemoveFile(dir, name))
    ensures v.reliable && Mirrored(old(v.disk), v.g) ==> Mirrored(v.disk, v.g)
  {
    hide FatOf, DataOf, Coherent, InfoMatches, Chain, DirSlots, Scan, DirOk, OwnerOk, Sound, FreeChain, Touch,
         MarkWrites, FirstOfSlot, Mirrored, SlotsOf, IsShort, IsLfn;
    ghost var f, ch := Fs(v.View(), chains), chains[DirAt(dir)];
    SameView(v, chains, dir);
    var found, clusters := FindInDirectory(v, dir, name, ch);
    if found.None? || IsDir(found.value.short) { return false, chains; }
    var e := found.value;
    ScanOrder(SlotsOf(f, dir));
    after := chains - {FileAt(dir, e.at)};
    ghost var y := Touch(f.vol, ch, MarkWrites(SlotsOf(f, dir), e));
    RemoveSlots(f, y, dir, e);
    FreedKeeps(f, y, dir, e);
    ok := MarkSlots(v, clusters, e, ch);
    if !ok { return; }
    FirstBound(e.short);
    ok := v.FreeClusterChain(FirstOfSlot(e.short));
  }
}
