/** When write_file has room: exactly how many free clusters an operation needs. */
module FatSpace {
  import opened Bytes
  import opened Wrappers
  import opened FatModel
  import opened FatProofs
  import opened FatNames
  import opened FatDirectory
  import opened FatUpdate
  import opened FatCreate
  import opened FatSlots
  import opened FatOwners
  import opened FatFiles
  import opened FatOps
  import opened FatHistory

  // --------------------------------------------------------- growing directory

  /** Clusters a directory must grow by to have a run of free slots of that length. */
  function Growth(slots: seq<Slot>, needed: nat, per: nat): nat
    requires needed > 0 && per > 0
  {
    if FindRun(slots, needed, 0).Some? then 0 else ClustersFor(needed - RunState(slots, |slots|).0, per)
  }

  /** Zeroed slots behind a directory lengthen the run at its end. */
  lemma {:induction false} RunThroughEnd(a: seq<Slot>, b: seq<Slot>, j: nat)
    requires Grown(a, b) && |a| + j <= |b|
    ensures RunState(b, |a| + j).0 == RunState(a, |a|).0 + j
  {
    if j == 0 { RunStateGrown(a, b, |a|); } else { RunThroughEnd(a, b, j - 1); }
  }

  /** One more cluster is one cluster less to come. */
  lemma GrowthStep(a: seq<Slot>, b: seq<Slot>, needed: nat, per: nat)
    requires needed > 0 && per > 0 && Grown(a, b) && |b| == |a| + per && FindRun(a, needed, 0).None?
    ensures Growth(a, needed, per) == Growth(b, needed, per) + 1
  {
    var run := RunState(a, |a|).0;
    RunThroughEnd(a, b, per);
    if run + per >= needed {
      RunThroughEnd(a, b, needed - run);
    } else {
      forall j | 0 <= j <= |b| ensures RunState(b, j).0 < needed {
        if j <= |a| { RunStateGrown(a, b, j); } else { RunThroughEnd(a, b, j - |a|); }
      }
    }
  }

  /** The slot search succeeds exactly when the clusters it has to append are free, and takes them. */
  lemma {:induction false} AllocSlotsSpace(v: Vol, ch: seq<nat>, needed: nat)
    requires DirChain(v, ch) && needed > 0
    ensures Per(v) > 0 && DirFits(v, ch)
    ensures var (w, now, p) := AllocSlots(v, ch, needed);
            var n := Growth(DirSlots(v.data, ch), needed, Per(v));
            && w.max == v.max && |w.fat| == |v.fat| && (p.Some? <==> n <= FreeClusters(v))
            && (p.Some? ==> FreeClusters(w) == FreeClusters(v) - n)
    decreases |v.fat| - NonZero(v.fat)
  {
    hide Chain, Extend, Allocate, DirSlots, FindRun, RunState, Grown, FreeClusters, ClustersFor;
    ChainFits(v, ch);
    var slots := DirSlots(v.data, ch);
    if FindRun(slots, needed, 0).None? {
      AllocateCounts(v);
      GrowthPositive(slots, needed, Per(v));
      if Allocate(v).1 != 0 {
        var (w, c) := Allocate(v);
        AppendDirChain(v, ch);
        AppendGrows(v, ch);
        AppendTakesOne(v, ch);
        var u := Extend(w, ch, c, []);
        AppendedLength(v, u, ch, c);
        GrowthStep(slots, DirSlots(u.data, ch + [c]), needed, Per(v));
        AllocSlotsSpace(u, ch + [c], needed);
      }
    }
  }

  lemma GrowthPositive(slots: seq<Slot>, needed: nat, per: nat)
    requires needed > 0 && per > 0 && FindRun(slots, needed, 0).None?
    ensures Growth(slots, needed, per) > 0
  {
  }

  lemma AppendTakesOne(v: Vol, ch: seq<nat>)
    requires DirChain(v, ch) && Allocate(v).1 != 0
    ensures var (w, c) := Allocate(v);
            && c <= v.max && |ch| > 0 && ch[|ch| - 1] < |w.fat| && c < |w.data|
            && var u := Extend(w, ch, c, []);
               u.max == v.max && |u.fat| == |v.fat| && FreeClusters(u) == FreeClusters(v) - 1
  {
    hide FindFree;
    AllocateCounts(v);
    ChainNonZero(v.fat, ch, v.max);
    var (w, c) := Allocate(v);
    ExtendCounts(w, ch, c, []);
  }

  lemma AppendedLength(v: Vol, u: Vol, ch: seq<nat>, c: nat)
    requires DirFits(v, ch) && DirFits(u, ch + [c]) && Per(u) == Per(v)
    ensures |DirSlots(u.data, ch + [c])| == |DirSlots(v.data, ch)| + Per(v)
  {
    SlotCount(v.data, ch, Per(v));
    SlotCount(u.data, ch + [c], Per(v));
    assert (|ch| + 1) * Per(v) == |ch| * Per(v) + Per(v);
  }

  // ----------------------------------------------------------- each operation

  /** Clusters of a file. */
  ghost function Clusters(f: Fs, dir: nat, e: Entry): nat {
    if FileAt(dir, e.at) in f.chains then |f.chains[FileAt(dir, e.at)]| else 0
  }

  lemma FreedSpace(f: Fs, dir: nat, e: Entry)
    requires Inv(f) && DirAt(dir) in f.chains && e in Entries(f, dir) && !IsDir(e.short)
    ensures Shape(f.vol) && Shape(FreedVol(f, e)) && FreedVol(f, e).clusterBytes == f.vol.clusterBytes
    ensures FreeClusters(FreedVol(f, e)) == FreeClusters(f.vol) + Clusters(f, dir, e)
  {
    hide FreeChain, Entries, Chain, WellFormed, SlotsOf, FreeClusters;
    assert DirOk(f, dir) && EntryOk(f.vol.clusterBytes, f.chains, dir, e);
    FreedKeeps(f, f.vol, dir, e);
    FreedShape(f, dir, e);
    if FirstOfSlot(e.short) != 0 {
      FreeChainKeepsCount(f.vol, f.chains[FileAt(dir, e.at)]);
    } else {
      FreeNothing(f.vol);
    }
  }

  /** Writing a file again succeeds exactly when its bytes fit the free clusters and its own old ones. */
  lemma OverwriteSucceeds(f: Fs, dir: nat, e: Entry, bytes: seq<Byte>)
    requires Inv(f) && DirAt(dir) in f.chains && e in Entries(f, dir) && !IsDir(e.short)
    ensures Shape(f.vol)
    ensures Overwrite(f, dir, e, bytes).1 <==>
              ClustersFor(|bytes|, f.vol.clusterBytes) <= FreeClusters(f.vol) + Clusters(f, dir, e)
  {
    hide Inv, FreeClusters, WriteData, Entries, Touch, ClustersFor;
    FreedSpace(f, dir, e);
    WriteDataCounts(FreedVol(f, e), bytes);
  }

  /** A new file is stored exactly when its name gets an alias and the free clusters hold its bytes and the
      grown directory. */
  lemma CreateSucceeds(f: Fs, dir: nat, name: Name, bytes: seq<Byte>)
    requires Inv(f) && DirAt(dir) in f.chains
    ensures Shape(f.vol) && Per(f.vol) > 0
    ensures Create(f, dir, name, bytes).1 <==>
              && AliasFor(Entries(f, dir), name).Some?
              && Growth(SlotsOf(f, dir), SlotsFor(name), Per(f.vol)) + ClustersFor(|bytes|, f.vol.clusterBytes)
                 <= FreeClusters(f.vol)
  {
    hide FreeClusters, WriteData, Touch, ClustersFor, Growth, AllocSlots, EntryFor, AliasFor, SlotsFor, Scan, DirOk,
         OwnerOk, Chain;
    SoundFits(f.vol, f.chains, DirAt(dir));
    var ch, needed := f.chains[DirAt(dir)], SlotsFor(name);
    AllocSlotsSpace(f.vol, ch, needed);
    AllocSlotsKeeps(f.vol, f.chains, DirAt(dir), needed);
    var (u, now, p) := AllocSlots(f.vol, ch, needed);
    RoomShape(f.vol, f.chains, DirAt(dir), needed, u, now, p);
    WriteDataCounts(u, bytes);
  }

  lemma RoomShape(v: Vol, chains: Chains, o: Owner, needed: nat, w: Vol, ch: seq<nat>, p: Option<nat>)
    requires o in chains && Roomed(v, chains, o, needed, w, ch, p)
    ensures Shape(w) && w.clusterBytes == v.clusterBytes
  {
    hide Chain, DirSlots, FirstRun, Grown;
  }

  // ------------------------------------------------------------------- steps

  /** What an operation needs to be there, and the room it needs. */
  ghost predicate Succeeds(f: Fs, op: Op)
    requires Inv(f) && ValidOp(f, op) && Shape(f.vol) && Per(f.vol) > 0
  {
    var found := Lookup(Entries(f, op.dir), op.name);
    match op
    case WriteFile(dir, name, bytes) =>
      var n := ClustersFor(|bytes|, f.vol.clusterBytes);
      if found.Some? then !IsDir(found.value.short) && n <= FreeClusters(f.vol) + Clusters(f, dir, found.value)
      else && AliasFor(Entries(f, dir), name).Some?
           && Growth(SlotsOf(f, dir), SlotsFor(name), Per(f.vol)) + n <= FreeClusters(f.vol)
    case RemoveFile(_, _) => found.Some? && !IsDir(found.value.short)
  }

  /** write_file and remove_file succeed exactly then. */
  lemma StepSucceeds(f: Fs, op: Op)
    requires Inv(f) && ValidOp(f, op)
    ensures Shape(f.vol) && Per(f.vol) > 0 && (Step(f, op).1 <==> Succeeds(f, op))
  {
    hide Inv, Create, Overwrite, Remove, Entries, FreeClusters, ClustersFor, Growth, AliasFor, SlotsFor, SlotsOf,
         Clusters;
    InvSound(f);
    RoomyVolume(f, op.dir);
    var found := Lookup(Entries(f, op.dir), op.name);
    match op
    case WriteFile(dir, name, bytes) =>
      if found.None? {
        CreateSucceeds(f, dir, name, bytes);
      } else if !IsDir(found.value.short) {
        OverwriteSucceeds(f, dir, found.value, bytes);
      }
    case RemoveFile(dir, name) =>
  }

  lemma RoomyVolume(f: Fs, dir: nat)
    requires Inv(f) && DirAt(dir) in f.chains
    ensures Shape(f.vol) && Per(f.vol) > 0
  {
    SoundFits(f.vol, f.chains, DirAt(dir));
  }

  /** A write that fails for want of space has emptied the file: its old bytes are gone. */
  lemma FailedWriteEmpties(f: Fs, op: Op)
    requires Inv(f) && ValidOp(f, op) && op.WriteFile? && !Step(f, op).1
    requires var found := Lookup(Entries(f, op.dir), op.name); found.Some? && !IsDir(found.value.short)
    ensures var g := Step(f, op).0;
            && Inv(g) && DirAt(op.dir) in g.chains
            && var r := Lookup(Entries(g, op.dir), op.name);
               r.Some? && r.value in Entries(g, op.dir) && !IsDir(r.value.short) && Contents(g, op.dir, r.value) == []
  {
    hide Inv, Scan, Overwrite, SizeOfSlot, Replaced, Sound, SlotsOf, Contents;
    InvSound(f);
    var e, g := Lookup(Entries(f, op.dir), op.name).value, Step(f, op).0;
    OverwriteKeeps(f, op.dir, e, op.bytes);
    InvSound(g);
    var r :| r in Entries(g, op.dir) && Entries(g, op.dir) == Replaced(Entries(f, op.dir), e.at, r)
             && r.at == e.at && r.name == e.name && !IsDir(r.short) && SizeOfSlot(r.short) == 0;
    ScanOrder(SlotsOf(f, op.dir));
    LookupRewritten(Entries(f, op.dir), op.name, e, r);
    EmptyContents(g, op.dir, r);
  }

  lemma EmptyContents(g: Fs, dir: nat, r: Entry)
    requires Inv(g) && DirAt(dir) in g.chains && r in Entries(g, dir) && !IsDir(r.short) && SizeOfSlot(r.short) == 0
    ensures Contents(g, dir, r) == []
  {
    hide Scan, SlotsOf, FirstOfSlot, SizeOfSlot, Concat;
    assert DirOk(g, dir) && EntryOk(g.vol.clusterBytes, g.chains, dir, r);
    if FirstOfSlot(r.short) != 0 { ConcatLength(g.vol.data, g.chains[FileAt(dir, r.at)], g.vol.clusterBytes); }
  }
}
