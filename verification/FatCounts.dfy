/** The free count of the FSInfo sector over whole-volume runs, and a volume to start from. */
module FatCounts {
  import opened Bytes
  import opened FatModel
  import opened FatProofs
  import opened FatNames
  import opened FatDirectory
  import opened FatUpdate
  import opened FatSlots
  import opened FatCreate
  import opened FatOwners
  import opened FatFiles
  import opened FatOps
  import opened FatHistory

  lemma TouchCount(v: Vol, ch: seq<nat>, ws: seq<SlotWrite>)
    requires CountOk(v)
    ensures CountOk(Touch(v, ch, ws))
  {
    hide SetSlots, NonZero;
  }

  lemma FreedCount(f: Fs, v: Vol, dir: nat, e: Entry)
    requires Inv(f) && DirAt(dir) in f.chains && e in Entries(f, dir) && !IsDir(e.short) && Sound(v, f.chains)
             && CountOk(v)
    ensures CountOk(FreeChain(v, FirstOfSlot(e.short)).0)
  {
    hide CountOk, FreeChain, Scan, SlotsOf, WellFormed, FirstOfSlot, SizeOfSlot;
    assert DirOk(f, dir) && EntryOk(f.vol.clusterBytes, f.chains, dir, e);
    if FirstOfSlot(e.short) != 0 {
      FreeChainKeepsCount(v, f.chains[FileAt(dir, e.at)]);
    } else {
      FreeNothing(v);
    }
  }

  lemma AppendCount(v: Vol, ch: seq<nat>)
    requires Shape(v) && Chain(v.fat, ch, v.max) && CountOk(v) && Allocate(v).1 != 0
    ensures Allocate(v).1 <= v.max && ch != [] && ch[|ch| - 1] < |Allocate(v).0.fat|
    ensures CountOk(Extend(Allocate(v).0, ch, Allocate(v).1, []))
  {
    AllocateRange(v);
    AllocateKeepsCount(v);
    ChainNonZero(v.fat, ch, v.max);
    var (w, c) := Allocate(v);
    hide FindFree;
    ExtendCounts(w, ch, c, []);
  }

  lemma {:induction false} AllocSlotsCount(v: Vol, ch: seq<nat>, needed: nat)
    requires DirChain(v, ch) && needed > 0 && CountOk(v)
    ensures CountOk(AllocSlots(v, ch, needed).0)
    decreases |v.fat| - NonZero(v.fat)
  {
    hide CountOk, Chain, Extend, Allocate, DirSlots, FindRun;
    ChainFits(v, ch);
    if FindRun(DirSlots(v.data, ch), needed, 0).None? && Allocate(v).1 != 0 {
      AllocateRange(v);
      AppendCount(v, ch);
      AppendDirChain(v, ch);
      var (w, c) := Allocate(v);
      AllocSlotsCount(Extend(w, ch, c, []), ch + [c], needed);
    }
  }

  lemma OverwriteCount(f: Fs, dir: nat, e: Entry, bytes: seq<Byte>)
    requires Inv(f) && DirAt(dir) in f.chains && e in Entries(f, dir) && !IsDir(e.short) && CountOk(f.vol)
    ensures CountOk(Overwrite(f, dir, e, bytes).0.vol)
  {
    hide CountOk, FreeChain, WriteData, Touch, Sound, Scan, DirOk, OwnerOk;
    FreedKeeps(f, f.vol, dir, e);
    FreedShape(f, dir, e);
    FreedCount(f, f.vol, dir, e);
    WriteDataCounts(FreedVol(f, e), bytes);
    var (w, cs, ok) := WriteData(FreedVol(f, e), bytes);
    var slot := if ok then UpdatedSlot(e.short, CaseInfo(e.name), FirstOf(cs), |bytes|) else EmptiedSlot(e.short);
    TouchCount(w, f.chains[DirAt(dir)], [SlotWrite(e.at, slot)]);
  }

  lemma RemoveCount(f: Fs, dir: nat, e: Entry)
    requires Inv(f) && DirAt(dir) in f.chains && e in Entries(f, dir) && !IsDir(e.short) && CountOk(f.vol)
    ensures CountOk(Remove(f, dir, e).vol)
  {
    hide CountOk, FreeChain, Touch, Sound, Scan, DirOk, OwnerOk, MarkWrites, IsShort, IsLfn;
    ScanOrder(SlotsOf(f, dir));
    var ws := MarkWrites(SlotsOf(f, dir), e);
    var y := Touch(f.vol, f.chains[DirAt(dir)], ws);
    RemoveSlots(f, y, dir, e);
    TouchCount(f.vol, f.chains[DirAt(dir)], ws);
    FreedCount(f, y, dir, e);
  }

  lemma CreateCount(f: Fs, dir: nat, name: Name, bytes: seq<Byte>)
    requires Inv(f) && DirAt(dir) in f.chains && CountOk(f.vol)
    ensures CountOk(Create(f, dir, name, bytes).0.vol)
  {
    hide CountOk, WriteData, Touch, Scan, AllocSlots, EntryFor, AliasFor, DirOk, OwnerOk, Sound, NewWrites, Chain,
         FirstRun, Grown;
    SoundFits(f.vol, f.chains, DirAt(dir));
    AllocSlotsCount(f.vol, f.chains[DirAt(dir)], SlotsFor(name));
    AllocSlotsKeeps(f.vol, f.chains, DirAt(dir), SlotsFor(name));
    var (u, ch, p) := AllocSlots(f.vol, f.chains[DirAt(dir)], SlotsFor(name));
    SoundFits(u, f.chains[DirAt(dir) := ch], DirAt(dir));
    WriteDataCounts(u, bytes);
    var alias := AliasFor(Entries(f, dir), name);
    if alias.Some? && p.Some? {
      var (w, cs, ok) := WriteData(u, bytes);
      if ok { TouchCount(w, ch, NewWrites(p.value, EntryFor(name, alias.value, FirstOf(cs), |bytes|))); }
    }
  }

  /** Every outcome of an operation keeps a correct free count correct. */
  lemma StepKeepsCount(f: Fs, op: Op)
    requires Inv(f) && ValidOp(f, op) && CountOk(f.vol)
    ensures CountOk(Step(f, op).0.vol)
  {
    hide Inv, CountOk, Create, Overwrite, Remove, Entries;
    InvSound(f);
    var found := Lookup(Entries(f, op.dir), op.name);
    match op
    case WriteFile(dir, name, bytes) =>
      if found.None? { CreateCount(f, dir, name, bytes); }
      else if !IsDir(found.value.short) { OverwriteCount(f, dir, found.value, bytes); }
    case RemoveFile(dir, name) =>
      if found.Some? && !IsDir(found.value.short) { RemoveCount(f, dir, found.value); }
  }

  /** Over every run the FSInfo free count, once correct, is the number of zero entries. */
  lemma {:induction false} RunKeepsCount(f: Fs, ops: seq<Op>)
    requires Inv(f) && ValidRun(f, ops) && CountOk(f.vol)
    ensures CountOk(After(f, ops).vol)
    decreases |ops|
  {
    if ops != [] {
      hide Inv, Step, CountOk;
      StepKeepsCount(f, ops[0]);
      StepKeeps(f, ops[0]);
      RunKeepsCount(Step(f, ops[0]).0, ops[1..]);
    }
  }

  // ------------------------------------------------------------ a first volume

  /** An empty volume: cluster 2 is the root directory, every other data cluster is free. */
  function EmptyVolume(max: nat, clusterBytes: nat, hint: nat): Fs
    requires 2 <= max
  {
    var fat := seq<nat>(max + 1, c => if c == 2 then END_OF_CHAIN else 0);
    var data := seq<seq<Byte>>(max + 1, _ => Zeros(clusterBytes));
    Fs(Vol(fat, data, max, clusterBytes, max - 2, hint), map[DirAt(2) := [2]])
  }

  lemma {:induction false} AllZero(fat: seq<nat>)
    requires forall i :: 0 <= i < |fat| ==> fat[i] == 0
    ensures NonZero(fat) == 0
  {
    if fat != [] { AllZero(fat[1..]); }
  }

  /** Runs can start: an empty volume satisfies the invariant and has a correct free count. */
  lemma EmptyVolumeInv(max: nat, clusterBytes: nat, hint: nat)
    requires 2 <= max < END_OF_CHAIN - 1 && clusterBytes > 0 && clusterBytes % 32 == 0
    ensures Inv(EmptyVolume(max, clusterBytes, hint)) && CountOk(EmptyVolume(max, clusterBytes, hint).vol)
  {
    hide Chain, WellFormed, CountOk, Scan;
    var f := EmptyVolume(max, clusterBytes, hint);
    EmptyChain(max, clusterBytes, hint);
    EmptyCount(max, clusterBytes, hint);
    var slots := SlotsOf(f, 2);
    assert Concat(f.vol.data, [2][1..]) == [];
    assert forall i :: 0 <= i < |slots| ==> IsEnd(slots[i]);
    EmptyScan(slots);
  }

  lemma EmptyChain(max: nat, clusterBytes: nat, hint: nat)
    requires 2 <= max < END_OF_CHAIN - 1
    ensures Chain(EmptyVolume(max, clusterBytes, hint).vol.fat, [2], max)
  {
  }

  lemma EmptyCount(max: nat, clusterBytes: nat, hint: nat)
    requires 2 <= max < END_OF_CHAIN - 1
    ensures CountOk(EmptyVolume(max, clusterBytes, hint).vol)
  {
    var v := EmptyVolume(max, clusterBytes, hint).vol;
    var rest := v.fat[2..max + 1];
    assert rest == [END_OF_CHAIN] + rest[1..];
    AllZero(rest[1..]);
  }

  lemma EmptyScan(slots: seq<Slot>)
    requires forall i :: 0 <= i < |slots| ==> IsEnd(slots[i])
    ensures Scan(slots, 0, []) == [] && WellFormed(slots)
  {
  }
}
