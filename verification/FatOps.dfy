/** write_file and remove_file on a volume of files, all their outcomes included. */
module FatOps {
  import opened Bytes
  import opened Wrappers
  import opened FatModel
  import opened FatProofs
  import opened FatNames
  import opened FatDirectory
  import opened FatRemove
  import opened FatUpdate
  import opened FatCreate
  import opened FatSlots
  import opened FatOwners
  import opened FatFiles

  // ------------------------------------------------------------- slot writes

  /** The short slot first, then the long-name slots in front of it. */
  function NewWrites(p: nat, news: seq<Slot>): (r: seq<SlotWrite>)
    requires |news| > 0
    ensures |r| == |news|
  {
    var n := |news| - 1;
    seq(|news|, k requires 0 <= k < |news| =>
        if k == 0 then SlotWrite(p + n, news[n]) else SlotWrite(p + k - 1, news[k - 1]))
  }

  /** The short slot marked first, then the long-name slots. */
  function MarkWrites(slots: seq<Slot>, e: Entry): (r: seq<SlotWrite>)
    requires e.at < |slots| && forall k :: 0 <= k < |e.lfns| ==> e.lfns[k] < |slots|
    ensures |r| == |e.lfns| + 1
  {
    seq(|e.lfns| + 1, k requires 0 <= k <= |e.lfns| =>
      var i := if k == 0 then e.at else e.lfns[k - 1];
      SlotWrite(i, MarkUnused(slots[i])))
  }

  ghost predicate DistinctPlaces(ws: seq<SlotWrite>) {
    forall i, j :: 0 <= i < j < |ws| ==> ws[i].at != ws[j].at
  }

  lemma {:induction false} UpdateAllMiss(slots: seq<Slot>, ws: seq<SlotWrite>, j: nat)
    requires (forall k :: 0 <= k < |ws| ==> ws[k].at < |slots| && ws[k].at != j) && j < |slots|
    ensures UpdateAll(slots, ws)[j] == slots[j]
    decreases |ws|
  {
    if ws != [] { UpdateAllMiss(slots, ws[..|ws| - 1], j); }
  }

  lemma {:induction false} UpdateAllHit(slots: seq<Slot>, ws: seq<SlotWrite>, k: nat)
    requires (forall i :: 0 <= i < |ws| ==> ws[i].at < |slots|) && DistinctPlaces(ws) && k < |ws|
    ensures UpdateAll(slots, ws)[ws[k].at] == ws[k].slot
    decreases |ws|
  {
    if k < |ws| - 1 { UpdateAllHit(slots, ws[..|ws| - 1], k); }
  }

  /** The writes reach exactly the places [lo, hi), each once. */
  ghost predicate Reaches(ws: seq<SlotWrite>, lo: nat, hi: nat) {
    && DistinctPlaces(ws) && (forall k :: 0 <= k < |ws| ==> lo <= ws[k].at < hi)
    && forall j :: lo <= j < hi ==> Writes(ws, j)
  }

  ghost predicate Writes(ws: seq<SlotWrite>, j: nat) { exists k :: 0 <= k < |ws| && ws[k].at == j }

  /** Updates that reach a stretch replace it by what they write. */
  lemma UpdateStretch(slots: seq<Slot>, ws: seq<SlotWrite>, lo: nat, hi: nat, after: seq<Slot>)
    requires Reaches(ws, lo, hi) && hi <= |slots| == |after|
    requires forall k :: 0 <= k < |ws| ==> after[ws[k].at] == ws[k].slot
    requires forall j :: 0 <= j < |slots| && !(lo <= j < hi) ==> after[j] == slots[j]
    ensures WritesFit(ws, |slots|) && UpdateAll(slots, ws) == after
  {
    hide UpdateAll;
    forall j | 0 <= j < |slots| ensures UpdateAll(slots, ws)[j] == after[j] {
      if lo <= j < hi {
        assert Writes(ws, j);
        var k :| 0 <= k < |ws| && ws[k].at == j;
        UpdateAllHit(slots, ws, k);
      } else {
        UpdateAllMiss(slots, ws, j);
      }
    }
  }

  lemma NewReaches(p: nat, news: seq<Slot>)
    requires |news| > 0
    ensures Reaches(NewWrites(p, news), p, p + |news|)
    ensures forall k :: 0 <= k < |news| ==> NewWrites(p, news)[k].slot == news[NewWrites(p, news)[k].at - p]
  {
    var ws := NewWrites(p, news);
    forall j | p <= j < p + |news| ensures Writes(ws, j) {
      assert ws[if j == p + |news| - 1 then 0 else j - p + 1].at == j;
    }
  }

  lemma CreatedAt(slots: seq<Slot>, p: nat, news: seq<Slot>)
    requires p + |news| <= |slots|
    ensures forall j :: 0 <= j < |slots| ==>
              Created(slots, p, news)[j] == if p <= j < p + |news| then news[j - p] else slots[j]
  {
    forall j | 0 <= j < |slots|
      ensures Created(slots, p, news)[j] == if p <= j < p + |news| then news[j - p] else slots[j]
    {
    }
  }

  lemma NewWritesCreate(slots: seq<Slot>, p: nat, news: seq<Slot>)
    requires |news| > 0 && p + |news| <= |slots|
    ensures WritesFit(NewWrites(p, news), |slots|) && UpdateAll(slots, NewWrites(p, news)) == Created(slots, p, news)
  {
    hide UpdateAll, NewWrites, Created;
    NewReaches(p, news);
    CreatedAt(slots, p, news);
    UpdateStretch(slots, NewWrites(p, news), p, p + |news|, Created(slots, p, news));
  }

  lemma MarkReaches(slots: seq<Slot>, e: Entry)
    requires Shaped(slots, 0, e)
    ensures Reaches(MarkWrites(slots, e), e.at - |e.lfns|, e.at + 1)
    ensures forall k :: 0 <= k <= |e.lfns| ==>
              MarkWrites(slots, e)[k].slot == MarkUnused(slots[MarkWrites(slots, e)[k].at])
    ensures forall j :: 0 <= j < |slots| ==> (Occupies(e, j) <==> e.at - |e.lfns| <= j <= e.at)
  {
    hide IsShort, IsLfn, MarkUnused;
    var ws, start := MarkWrites(slots, e), e.at - |e.lfns|;
    forall j | start <= j < e.at + 1 ensures Writes(ws, j) && Occupies(e, j) {
      if j < e.at { assert e.lfns[j - start] == j; }
      assert ws[if j == e.at then 0 else j - start + 1].at == j;
    }
  }

  lemma MarkWritesRemove(slots: seq<Slot>, e: Entry)
    requires Shaped(slots, 0, e)
    ensures WritesFit(MarkWrites(slots, e), |slots|) && UpdateAll(slots, MarkWrites(slots, e)) == Removed(slots, e)
  {
    hide UpdateAll, IsShort, IsLfn, MarkWrites, Occupies, MarkUnused;
    MarkReaches(slots, e);
    UpdateStretch(slots, MarkWrites(slots, e), e.at - |e.lfns|, e.at + 1, Removed(slots, e));
  }

  // -------------------------------------------------------------- operations

  datatype Op = WriteFile(dir: nat, name: Name, bytes: seq<Byte>) | RemoveFile(dir: nat, name: Name)

  /** The path component "." is skipped by the resolver, so no entry is found under it. */
  function Lookup(es: seq<Entry>, name: Name): (r: Option<Entry>)
    ensures r.Some? ==> r.value in es && r.value.name == name
    ensures r.None? && name != [DOT] ==> forall e :: e in es ==> e.name != name
  {
    if es == [] || name == [DOT] then None
    else if es[0].name == name then Some(es[0])
    else Lookup(es[1..], name)
  }

  function Stored(chains: Chains, o: Owner, cs: seq<nat>): Chains { if cs == [] then chains - {o} else chains[o := cs] }

  /** What write_file_data leaves, whatever its outcome. */
  ghost predicate DataStored(v: Vol, chains: Chains, o: Owner, bytes: seq<Byte>, w: Vol, cs: seq<nat>, ok: bool) {
    && Sound(w, Stored(chains, o, cs)) && AllSame(v, w, chains)
    && (!ok ==> cs == []) && (cs == [] ==> !ok || bytes == []) && FirstOf(cs) < U32
    && (cs != [] ==> bytes != [] && FirstOf(cs) != 0 && |bytes| <= |cs| * w.clusterBytes)
    && (cs != [] ==>
          && (forall i :: 0 <= i < |cs| ==> cs[i] < |w.data|)
          && |bytes| <= |Concat(w.data, cs)| && Concat(w.data, cs)[..|bytes|] == bytes)
  }

  lemma StoreKeeps(v: Vol, chains: Chains, o: Owner, bytes: seq<Byte>)
    requires Sound(v, chains) && o !in chains
    ensures var (w, cs, ok) := WriteData(v, bytes); DataStored(v, chains, o, bytes, w, cs, ok)
  {
    hide Chain, Disjoint, WriteData, Building;
    WriteDataOutcome(v, bytes);
    var (w, cs, ok) := WriteData(v, bytes);
    assert chains - {o} == chains;
    if !ok {
      RollbackKeeps(v, w, chains);
    } else if bytes != [] {
      WrittenChain(v, w, cs, bytes);
      AddOwner(v, w, cs, bytes, chains, o);
    }
  }

  lemma WrittenChain(v: Vol, w: Vol, cs: seq<nat>, bytes: seq<Byte>)
    requires Written(v, w, cs, bytes) && bytes != []
    ensures cs != [] && 2 <= FirstOf(cs) < U32 && |bytes| <= |cs| * w.clusterBytes
  {
    ConcatLength(w.data, cs, w.clusterBytes);
  }

  /** Slot writes in a directory's chain. */
  ghost function Touch(v: Vol, ch: seq<nat>, ws: seq<SlotWrite>): Vol {
    if DirFits(v, ch) && WritesFit(ws, |ch| * Per(v)) then SetSlots(v, ch, ws) else v
  }

  /** What slot writes in one directory do. */
  lemma TouchKeeps(v: Vol, chains: Chains, d: nat, ws: seq<SlotWrite>)
    requires Sound(v, chains) && DirAt(d) in chains
    requires DirFits(v, chains[DirAt(d)]) && WritesFit(ws, |DirSlots(v.data, chains[DirAt(d)])|)
    ensures var w := Touch(v, chains[DirAt(d)], ws);
            && Sound(w, chains) && SameSizes(v, w) && w.fat == v.fat
            && (forall p :: p in chains && p != DirAt(d) ==> SameBytes(v, w, chains[p]))
            && DirFits(w, chains[DirAt(d)])
            && DirSlots(w.data, chains[DirAt(d)]) == UpdateAll(DirSlots(v.data, chains[DirAt(d)]), ws)
  {
    hide DirSlots, SetSlots, UpdateAll, Sound;
    SlotCount(v.data, chains[DirAt(d)], Per(v));
    SetSlotsKeeps(v, chains, DirAt(d), ws);
    SetSlotsSlots(v, chains[DirAt(d)], ws);
  }

  // --------------------------------------------------------------- overwriting

  /** The volume once the file's old chain is free. */
  ghost function FreedVol(f: Fs, e: Entry): Vol { FreeChain(f.vol, FirstOfSlot(e.short)).0 }

  lemma FreedKeeps(f: Fs, v: Vol, dir: nat, e: Entry)
    requires Inv(f) && DirAt(dir) in f.chains && e in Entries(f, dir) && !IsDir(e.short)
    requires Sound(v, f.chains)
    ensures var (w, ok) := FreeChain(v, FirstOfSlot(e.short));
            ok && Sound(w, f.chains - {FileAt(dir, e.at)}) && w.data == v.data && SameSizes(v, w)
  {
    hide FreeChain, Entries, Sound, WellFormed, SlotsOf;
    assert DirOk(f, dir) && EntryOk(f.vol.clusterBytes, f.chains, dir, e);
    if FirstOfSlot(e.short) != 0 {
      FreeOwner(v, f.chains, FileAt(dir, e.at));
    } else {
      FreeNothing(v);
      assert f.chains - {FileAt(dir, e.at)} == f.chains;
    }
  }

  lemma FreeNothing(v: Vol)
    ensures FreeChain(v, 0) == (v, true)
  {
  }

  /** write_file over an existing file. */
  ghost function Overwrite(f: Fs, dir: nat, e: Entry, bytes: seq<Byte>): (Fs, bool)
    requires Inv(f) && DirAt(dir) in f.chains && e in Entries(f, dir) && !IsDir(e.short)
  {
    FreedKeeps(f, f.vol, dir, e);
    var (w, cs, ok) := WriteData(FreedVol(f, e), bytes);
    var slot := if ok then UpdatedSlot(e.short, CaseInfo(e.name), FirstOf(cs), |bytes|) else EmptiedSlot(e.short);
    (Fs(Touch(w, f.chains[DirAt(dir)], [SlotWrite(e.at, slot)]), Stored(f.chains, FileAt(dir, e.at), cs)), ok)
  }

  /** The volume and owners before the slot is rewritten. */
  lemma OverwriteStored(f: Fs, dir: nat, e: Entry, bytes: seq<Byte>, w: Vol, cs: seq<nat>, ok: bool)
    requires Inv(f) && DirAt(dir) in f.chains && e in Entries(f, dir) && !IsDir(e.short)
    requires Shape(FreedVol(f, e)) && (w, cs, ok) == WriteData(FreedVol(f, e), bytes)
    ensures var o := FileAt(dir, e.at); var kept := f.chains - {o};
            && Sound(w, Stored(f.chains, o, cs)) && DataStored(FreedVol(f, e), kept, o, bytes, w, cs, ok)
            && AllSame(f.vol, w, kept)
  {
    hide WriteData, FreeChain, Entries, Sound;
    FreedKeeps(f, f.vol, dir, e);
    var o := FileAt(dir, e.at);
    var kept := f.chains - {o};
    StoreKeeps(FreedVol(f, e), kept, o, bytes);
    assert Stored(kept, o, cs) == Stored(f.chains, o, cs) by {
      assert kept - {o} == kept;
      assert kept[o := cs] == f.chains[o := cs];
    }
  }

  /** A rewritten slot whose start and size fit again. */
  lemma RewriteCommits(f: Fs, g: Fs, dir: nat, e: Entry, slot: Slot)
    requires Inv(f) && DirAt(dir) in f.chains && e in Entries(f, dir) && Sound(g.vol, g.chains)
             && SameSizes(f.vol, g.vol)
    requires SameDirs(f, g, dir) && SameFiles(f, g, FileAt(dir, e.at))
    requires DirAt(dir) in g.chains && g.chains[DirAt(dir)] == f.chains[DirAt(dir)]
    requires e.at < |SlotsOf(f, dir)| && SlotsOf(g, dir) == SlotsOf(f, dir)[e.at := slot] && IsShort(slot)
             && !IsDir(slot)
    requires forall k :: 0 <= k < |e.lfns| ==> e.lfns[k] < |SlotsOf(f, dir)|
    requires EntryOk(g.vol.clusterBytes, g.chains, dir, Rewritten(SlotsOf(f, dir), e, slot))
    ensures Inv(g) && Preserves(f, g, dir, e.at) && Rewritten(SlotsOf(f, dir), e, slot) in Entries(g, dir)
    ensures Entries(g, dir) == Replaced(Entries(f, dir), e.at, Rewritten(SlotsOf(f, dir), e, slot))
  {
    hide Sound, EntryOk, WellFormed, Scan, Replaced, SlotsOf, IsShort, SameDirs, SameFiles, Rewritten, Preserves;
    assert DirOk(f, dir);
    var slots := SlotsOf(f, dir);
    RewrittenWell(slots, e, slot);
    ScanOrder(slots);
    var r := Rewritten(slots, e, slot);
    RewrittenIs(slots, e, slot);
    forall q: Entry ensures q in Entries(g, dir) <==> (q in Entries(f, dir) && q.at != e.at) || q == r {
      ReplacedMembers(Entries(f, dir), e, r, q);
    }
    assert HasFile(Entries(g, dir), e.at);
    Commit(f, g, dir, e.at);
  }

  lemma RewrittenIs(slots: seq<Slot>, e: Entry, s: Slot)
    requires forall k :: 0 <= k < |e.lfns| ==> e.lfns[k] < |slots|
    ensures Rewritten(slots, e, s).at == e.at && Rewritten(slots, e, s).short == s
  {
  }

  /** After the data is stored: directories and other files are as they were. */
  lemma StoredApart(f: Fs, g: Fs, dir: nat, o: Owner, cs: seq<nat>, w: Vol)
    requires Sound(f.vol, f.chains) && DirAt(dir) in f.chains && o.FileAt? && g.chains == Stored(f.chains, o, cs)
    requires AllSame(f.vol, w, f.chains - {o}) && SameSizes(w, g.vol)
    requires forall p :: p in g.chains && p != DirAt(dir) ==> SameBytes(w, g.vol, g.chains[p])
    ensures SameSizes(f.vol, g.vol) && SameDirs(f, g, dir) && SameFiles(f, g, o) && DirAt(dir) in g.chains
    ensures g.chains[DirAt(dir)] == f.chains[DirAt(dir)] && SameBytes(f.vol, w, f.chains[DirAt(dir)])
  {
    hide Sound;
    forall p | p in f.chains && p != o && p != DirAt(dir)
      ensures p in g.chains && g.chains[p] == f.chains[p] && SameBytes(f.vol, g.vol, f.chains[p])
    {
      assert p in f.chains - {o};
      assert SameBytes(w, g.vol, g.chains[p]);
    }
    assert DirAt(dir) in f.chains - {o};
  }

  /** The slot that is written in place. */
  lemma OverwriteSlot(f: Fs, dir: nat, e: Entry, cs: seq<nat>, n: nat, ok: bool)
    requires Inv(f) && DirAt(dir) in f.chains && e in Entries(f, dir) && !IsDir(e.short) && FirstOf(cs) < U32
    requires !ok ==> cs == []
    requires cs == [] ==> !ok || n == 0
    requires cs != [] ==> FirstOf(cs) != 0 && n <= |cs| * f.vol.clusterBytes
    ensures Shaped(SlotsOf(f, dir), 0, e)
    ensures var slot := if ok then UpdatedSlot(e.short, CaseInfo(e.name), FirstOf(cs), n) else EmptiedSlot(e.short);
            var r := Rewritten(SlotsOf(f, dir), e, slot);
            && IsShort(slot) && !IsDir(slot) && slot[..11] == e.short[..11] && r.name == e.name
            && SizeOfSlot(slot) == (if ok then n % U32 else 0)
            && EntryOk(f.vol.clusterBytes, Stored(f.chains, FileAt(dir, e.at), cs), dir, r)
  {
    hide Sound, WellFormed, Scan, SlotsOf, IsShort, FirstOfSlot, SizeOfSlot, NameOf, UpdatedSlot, EmptiedSlot, CaseInfo,
         Standard;
    assert DirOk(f, dir) && EntryOk(f.vol.clusterBytes, f.chains, dir, e);
    var slots := SlotsOf(f, dir);
    ScanOrder(slots);
    EntryName(slots, e);
    if ok {
      UpdatedFields(e.short, CaseInfo(e.name), FirstOf(cs), n);
      RewriteKeepsName(e.short, UpdatedSlot(e.short, CaseInfo(e.name), FirstOf(cs), n), Select(slots, e.lfns));
    } else {
      EmptiedFields(e.short);
      SameNameOf(e.short, EmptiedSlot(e.short), Select(slots, e.lfns));
    }
  }

  lemma SameNameOf(s: Slot, r: Slot, pending: seq<Slot>)
    requires r[..11] == s[..11] && r[12] == s[12]
    ensures NameOf(r, pending) == NameOf(s, pending)
  {
  }

  /** A reported name is decoded from the slots the entry lists. */
  lemma EntryName(slots: seq<Slot>, e: Entry)
    requires e in Scan(slots, 0, []) && Shaped(slots, 0, e)
    ensures e.name == NameOf(e.short, Select(slots, e.lfns))
  {
    hide Scan, IsShort, IsLfn;
    assert Upto(0, 0) == [];
    EntryNameFrom(slots, 0, [], e);
  }

  lemma {:induction false} EntryNameFrom(slots: seq<Slot>, i: nat, pending: seq<nat>, e: Entry)
    requires i <= |slots| && (forall k :: 0 <= k < |pending| ==> pending[k] < i) && e in Scan(slots, i, pending)
    ensures (forall k :: 0 <= k < |e.lfns| ==> e.lfns[k] < |slots|) && e.name == NameOf(e.short, Select(slots, e.lfns))
    decreases |slots| - i
  {
    hide NameOf, Select, IsShort, IsLfn;
    if IsLfn(slots[i]) {
      EntryNameFrom(slots, i + 1, Push(pending, i), e);
    } else if !(IsShort(slots[i]) && e == Scan(slots, i, pending)[0]) {
      EntryNameFrom(slots, i + 1, [], e);
    }
  }

  /** The listing with the entry at its place, under its name, with that size. */
  ghost predicate Rewrites(f: Fs, g: Fs, dir: nat, e: Entry, size: nat)
    requires Inv(f) && Inv(g) && DirAt(dir) in f.chains && DirAt(dir) in g.chains
  {
    exists r :: r in Entries(g, dir) && Entries(g, dir) == Replaced(Entries(f, dir), e.at, r)
                && r.at == e.at && r.name == e.name && !IsDir(r.short) && SizeOfSlot(r.short) == size
                && r.short[..11] == e.short[..11]
  }

  /** Overwriting keeps everything else, and the file under its name. */
  lemma OverwriteKeeps(f: Fs, dir: nat, e: Entry, bytes: seq<Byte>)
    requires Inv(f) && DirAt(dir) in f.chains && e in Entries(f, dir) && !IsDir(e.short)
    ensures var (g, ok) := Overwrite(f, dir, e, bytes);
            && Inv(g) && Preserves(f, g, dir, e.at) && DirAt(dir) in g.chains
            && Rewrites(f, g, dir, e, if ok then |bytes| % U32 else 0)
  {
    hide Sound, EntryOk, WellFormed, Scan, WriteData, IsShort, DirSlots, UpdatedSlot, EmptiedSlot, FirstOfSlot,
         SizeOfSlot, UpdateAll, FreeChain, Touch, Preserves, Chain;
    FreedKeeps(f, f.vol, dir, e);
    FreedShape(f, dir, e);
    var (w, cs, ok) := WriteData(FreedVol(f, e), bytes);
    OverwriteStored(f, dir, e, bytes, w, cs, ok);
    OverwriteSlot(f, dir, e, cs, |bytes|, ok);
    var slot := if ok then UpdatedSlot(e.short, CaseInfo(e.name), FirstOf(cs), |bytes|) else EmptiedSlot(e.short);
    var g := Overwrite(f, dir, e, bytes).0;
    OverwriteSlots(f, g, dir, e, cs, w, slot);
    RewriteCommits(f, g, dir, e, slot);
  }

  lemma FreedShape(f: Fs, dir: nat, e: Entry)
    requires Sound(FreedVol(f, e), f.chains - {FileAt(dir, e.at)})
    ensures Shape(FreedVol(f, e))
  {
  }

  lemma OverwriteSlots(f: Fs, g: Fs, dir: nat, e: Entry, cs: seq<nat>, w: Vol, slot: Slot)
    requires Inv(f) && DirAt(dir) in f.chains && Shaped(SlotsOf(f, dir), 0, e)
    requires g == Fs(Touch(w, f.chains[DirAt(dir)], [SlotWrite(e.at, slot)]), Stored(f.chains, FileAt(dir, e.at), cs))
    requires Sound(w, g.chains) && AllSame(f.vol, w, f.chains - {FileAt(dir, e.at)})
    ensures Sound(g.vol, g.chains) && SameSizes(f.vol, g.vol) && SameDirs(f, g, dir)
            && SameFiles(f, g, FileAt(dir, e.at))
    ensures DirAt(dir) in g.chains && g.chains[DirAt(dir)] == f.chains[DirAt(dir)]
    ensures SlotsOf(g, dir) == SlotsOf(f, dir)[e.at := slot]
  {
    hide Sound, WellFormed, Scan, IsShort, IsLfn, UpdateAll, Touch, Chain, SameDirs, SameFiles, AllSame, DirOk, OwnerOk;
    assert DirAt(dir) in f.chains - {FileAt(dir, e.at)};
    var h := Fs(w, g.chains);
    DirSame(f, w, dir, FileAt(dir, e.at));
    SameSlots(f, h, dir);
    SoundFits(w, g.chains, DirAt(dir));
    TouchKeeps(w, g.chains, dir, [SlotWrite(e.at, slot)]);
    StoredApart(f, g, dir, FileAt(dir, e.at), cs, w);
    UpdateOne(SlotsOf(f, dir), e.at, slot);
  }

  lemma DirSame(f: Fs, w: Vol, dir: nat, o: Owner)
    requires AllSame(f.vol, w, f.chains - {o}) && DirAt(dir) in f.chains - {o}
    ensures SameBytes(f.vol, w, f.chains[DirAt(dir)])
  {
  }

  lemma SoundFits(v: Vol, chains: Chains, o: Owner)
    requires Sound(v, chains) && o in chains
    ensures DirFits(v, chains[o]) && DirChain(v, chains[o])
  {
    ChainFits(v, chains[o]);
  }

  lemma UpdateOne(slots: seq<Slot>, at: nat, s: Slot)
    requires at < |slots|
    ensures UpdateAll(slots, [SlotWrite(at, s)]) == slots[at := s]
  {
    assert [SlotWrite(at, s)][..0] == [];
    assert UpdateAll(slots, []) == slots;
  }

  // ------------------------------------------------------------------ removing

  /** remove_file: mark the slots, then free the chain. */
  ghost function Remove(f: Fs, dir: nat, e: Entry): Fs
    requires Inv(f) && DirAt(dir) in f.chains && e in Entries(f, dir)
  {
    ScanOrder(SlotsOf(f, dir));
    var y := Touch(f.vol, f.chains[DirAt(dir)], MarkWrites(SlotsOf(f, dir), e));
    Fs(FreeChain(y, FirstOfSlot(e.short)).0, f.chains - {FileAt(dir, e.at)})
  }

  lemma RemoveSlots(f: Fs, y: Vol, dir: nat, e: Entry)
    requires Inv(f) && DirAt(dir) in f.chains && Shaped(SlotsOf(f, dir), 0, e)
    requires y == Touch(f.vol, f.chains[DirAt(dir)], MarkWrites(SlotsOf(f, dir), e))
    ensures Sound(y, f.chains) && SameSizes(f.vol, y) && SlotsOf(Fs(y, f.chains), dir) == Removed(SlotsOf(f, dir), e)
    ensures forall p :: p in f.chains && p != DirAt(dir) ==> SameBytes(f.vol, y, f.chains[p])
  {
    hide Sound, WellFormed, Scan, IsShort, IsLfn, UpdateAll, Touch, Chain, MarkWrites, Removed, DirOk, OwnerOk;
    SoundFits(f.vol, f.chains, DirAt(dir));
    MarkWritesRemove(SlotsOf(f, dir), e);
    TouchKeeps(f.vol, f.chains, dir, MarkWrites(SlotsOf(f, dir), e));
  }

  /** With the same bytes in a directory's clusters, a smaller set of owners sees the same slots. */
  lemma SlotsSameData(y: Vol, w: Vol, a: Chains, b: Chains, dir: nat)
    requires Sound(y, a) && Sound(w, b) && DirAt(dir) in a && DirAt(dir) in b && a[DirAt(dir)] == b[DirAt(dir)]
             && w.data == y.data
    ensures SlotsOf(Fs(w, b), dir) == SlotsOf(Fs(y, a), dir)
  {
  }

  lemma RemoveKeeps(f: Fs, dir: nat, e: Entry)
    requires Inv(f) && DirAt(dir) in f.chains && e in Entries(f, dir) && !IsDir(e.short)
    ensures var g := Remove(f, dir, e);
            && Inv(g) && Preserves(f, g, dir, e.at) && DirAt(dir) in g.chains
            && Entries(g, dir) == Deleted(Entries(f, dir), e.at)
            && forall q :: q in Entries(g, dir) ==> q.at != e.at
  {
    hide Sound, EntryOk, WellFormed, Scan, IsShort, FirstOfSlot, FreeChain, Touch, MarkWrites, Removed, Deleted,
         Preserves, SlotsOf;
    var slots := SlotsOf(f, dir);
    ScanOrder(slots);
    assert DirOk(f, dir);
    var y := Touch(f.vol, f.chains[DirAt(dir)], MarkWrites(slots, e));
    RemoveSlots(f, y, dir, e);
    FreedKeeps(f, y, dir, e);
    var g := Remove(f, dir, e);
    assert DirAt(dir) in g.chains;
    SlotsSameData(y, g.vol, f.chains, g.chains, dir);
    RemovedWell(slots, e);
    forall q: Entry ensures q in Entries(g, dir) <==> q in Entries(f, dir) && q.at != e.at {
      DeletedMembers(Entries(f, dir), e, q);
    }
    RemoveCommits(f, g, y, dir, e);
  }

  lemma RemoveCommits(f: Fs, g: Fs, y: Vol, dir: nat, e: Entry)
    requires Inv(f) && DirAt(dir) in f.chains && e in Entries(f, dir) && g.chains == f.chains - {FileAt(dir, e.at)}
             && g.vol.data == y.data
    requires Sound(g.vol, g.chains) && SameSizes(f.vol, y) && SameSizes(y, g.vol)
    requires forall p :: p in f.chains && p != DirAt(dir) ==> SameBytes(f.vol, y, f.chains[p])
    requires DirAt(dir) in g.chains && WellFormed(SlotsOf(g, dir))
    requires forall q: Entry :: q in Entries(g, dir) <==> q in Entries(f, dir) && q.at != e.at
    ensures Inv(g) && Preserves(f, g, dir, e.at)
  {
    hide Sound, EntryOk, WellFormed, Scan, SlotsOf, Entries, Preserves;
    assert DirOk(f, dir);
    forall p | p in f.chains && p != DirAt(dir) ensures SameBytes(f.vol, g.vol, f.chains[p]) {
      assert SameBytes(f.vol, y, f.chains[p]);
    }
    Commit(f, g, dir, e.at);
  }

  // ------------------------------------------------------------------ creating

  /** write_file under a name that is not there. */
  ghost function Create(f: Fs, dir: nat, name: Name, bytes: seq<Byte>): (Fs, bool)
    requires Inv(f) && DirAt(dir) in f.chains
  {
    var alias := AliasFor(Entries(f, dir), name);
    if alias.None? then (f, false)
    else
      SoundFits(f.vol, f.chains, DirAt(dir));
      AllocSlotsKeeps(f.vol, f.chains, DirAt(dir), SlotsFor(name));
      var (u, ch, p) := AllocSlots(f.vol, f.chains[DirAt(dir)], SlotsFor(name));
      var roomy := f.chains[DirAt(dir) := ch];
      if p.None? then (Fs(u, roomy), false)
      else
        var (w, cs, ok) := WriteData(u, bytes);
        if !ok then (Fs(w, roomy), false)
        else
          var news := EntryFor(name, alias.value, FirstOf(cs), |bytes|);
          (Fs(Touch(w, ch, NewWrites(p.value, news)), Stored(roomy, FileAt(dir, p.value + |news| - 1), cs)), true)
  }

  /** A directory that only grew by zeroed clusters lists the same. */
  lemma GrownCommits(f: Fs, g: Fs, dir: nat, x: nat)
    requires Inv(f) && DirAt(dir) in f.chains && Sound(g.vol, g.chains) && DirAt(dir) in g.chains
    requires g.chains == f.chains[DirAt(dir) := g.chains[DirAt(dir)]] && AllSame(f.vol, g.vol, f.chains)
    requires f.chains[DirAt(dir)] <= g.chains[DirAt(dir)] && Grown(SlotsOf(f, dir), SlotsOf(g, dir))
    ensures Inv(g) && Preserves(f, g, dir, x) && Entries(g, dir) == Entries(f, dir)
  {
    hide Sound, EntryOk, WellFormed, Scan, SlotsOf, Grown;
    assert DirOk(f, dir);
    var at := |SlotsOf(f, dir)|;
    GrownKeeps(SlotsOf(f, dir), SlotsOf(g, dir));
    assert forall e :: e in Entries(f, dir) ==> e.at < at;
    assert FileAt(dir, at) in f.chains ==> OwnerOk(f, FileAt(dir, at));
    Commit(f, g, dir, at);
  }

  /** The volume after room was found, or not: same files, same listing. */
  lemma RoomCommits(f: Fs, dir: nat, needed: nat, u: Vol, ch: seq<nat>, p: Option<nat>, w: Vol, x: nat)
    requires Inv(f) && DirAt(dir) in f.chains && needed > 0 && DirChain(f.vol, f.chains[DirAt(dir)])
    requires (u, ch, p) == AllocSlots(f.vol, f.chains[DirAt(dir)], needed)
    requires w == u || (Sound(w, f.chains[DirAt(dir) := ch]) && AllSame(u, w, f.chains[DirAt(dir) := ch]))
    ensures var g := Fs(w, f.chains[DirAt(dir) := ch]);
            && Inv(g) && Preserves(f, g, dir, x) && Entries(g, dir) == Entries(f, dir)
            && (p.Some? ==> FirstRun(SlotsOf(g, dir), needed, p.value))
  {
    hide Sound, AllocSlots, DirOk, OwnerOk, Preserves, Scan, FirstRun, Grown, Chain;
    AllocSlotsKeeps(f.vol, f.chains, DirAt(dir), needed);
    var roomy := f.chains[DirAt(dir) := ch];
    var h, g := Fs(u, roomy), Fs(w, roomy);
    if w != u {
      SameSlots(h, g, dir);
      AllSameTrans(f.vol, u, w, f.chains, roomy);
    }
    GrownCommits(f, g, dir, x);
  }

  /** The new slots in place, and the new file's chain with its owner. */
  lemma CreateSlots(f: Fs, g: Fs, dir: nat, p: nat, news: seq<Slot>, cs: seq<nat>, w: Vol)
    requires Inv(f) && DirAt(dir) in f.chains && |news| > 0 && p + |news| <= |SlotsOf(f, dir)|
    requires g == Fs(Touch(w, f.chains[DirAt(dir)], NewWrites(p, news)),
                     Stored(f.chains, FileAt(dir, p + |news| - 1), cs))
    requires Sound(w, g.chains) && AllSame(f.vol, w, f.chains - {FileAt(dir, p + |news| - 1)})
    ensures Sound(g.vol, g.chains) && SameSizes(f.vol, g.vol) && SameDirs(f, g, dir)
            && SameFiles(f, g, FileAt(dir, p + |news| - 1))
    ensures DirAt(dir) in g.chains && g.chains[DirAt(dir)] == f.chains[DirAt(dir)]
    ensures SlotsOf(g, dir) == Created(SlotsOf(f, dir), p, news)
  {
    hide Sound, WellFormed, Scan, IsShort, IsLfn, UpdateAll, Touch, Chain, SameDirs, SameFiles, AllSame, DirOk, OwnerOk,
         NewWrites, Created;
    var o := FileAt(dir, p + |news| - 1);
    assert DirAt(dir) in f.chains - {o};
    var h := Fs(w, g.chains);
    DirSame(f, w, dir, o);
    SameSlots(f, h, dir);
    SoundFits(w, g.chains, DirAt(dir));
    NewWritesCreate(SlotsOf(f, dir), p, news);
    TouchKeeps(w, g.chains, dir, NewWrites(p, news));
    StoredApart(f, g, dir, o, cs, w);
  }

  /** Written into room found in a good directory, the slots add one good file. */
  lemma CreateCommits(f: Fs, g: Fs, dir: nat, p: nat, news: seq<Slot>)
    requires Inv(f) && DirAt(dir) in f.chains && EntrySlots(news) && |news| > 0 && FirstRun(SlotsOf(f, dir), |news|, p)
    requires Sound(g.vol, g.chains) && SameSizes(f.vol, g.vol) && SameDirs(f, g, dir)
             && SameFiles(f, g, FileAt(dir, p + |news| - 1))
    requires DirAt(dir) in g.chains && g.chains[DirAt(dir)] == f.chains[DirAt(dir)]
    requires p + |news| <= |SlotsOf(f, dir)| && SlotsOf(g, dir) == Created(SlotsOf(f, dir), p, news)
    requires !IsDir(EntryOf(news, p).short) && EntryOk(g.vol.clusterBytes, g.chains, dir, EntryOf(news, p))
    ensures Inv(g) && Preserves(f, g, dir, p + |news| - 1) && EntryOf(news, p) in Entries(g, dir)
    ensures Entries(g, dir) == Inserted(Entries(f, dir), EntryOf(news, p))
    ensures forall q :: q in Entries(f, dir) ==> q.at != EntryOf(news, p).at
  {
    hide Sound, EntryOk, WellFormed, Scan, SlotsOf, Inserted, EntrySlots, FirstRun, SameDirs, SameFiles, Preserves,
         NameOf;
    assert DirOk(f, dir);
    var slots, e := SlotsOf(f, dir), EntryOf(news, p);
    RoomOf(slots, |news|, p);
    CreatedWell(slots, p, news);
    NothingThere(slots, p, |news|);
    forall q: Entry ensures q in Entries(g, dir) <==> q in Entries(f, dir) || q == e {
      InsertedMembers(Entries(f, dir), e, q);
    }
    assert HasFile(Entries(g, dir), e.at);
    Commit(f, g, dir, e.at);
  }

  lemma RoomOf(slots: seq<Slot>, n: nat, p: nat)
    requires WellFormed(slots) && n > 0 && FirstRun(slots, n, p)
    ensures RoomAt(slots, p, n)
  {
    hide Scan, RunState, IsFree;
    FirstRunIsRoom(slots, n, p);
  }

  lemma NothingThere(slots: seq<Slot>, p: nat, n: nat)
    requires RoomAt(slots, p, n)
    ensures forall e :: e in Scan(slots, 0, []) ==> e.at != p + n - 1
  {
    hide Scan, IsShort, IsFree, IsLfn;
    ScanOrder(slots);
    forall e | e in Scan(slots, 0, []) ensures e.at != p + n - 1 {
      assert Shaped(slots, 0, e);
      FreeOrUsed(slots[e.at]);
    }
  }

  /** Where a new file's slot comes to lie. */
  ghost function Place(f: Fs, dir: nat, name: Name): nat
    requires Inv(f) && DirAt(dir) in f.chains
  {
    SoundFits(f.vol, f.chains, DirAt(dir));
    var p := AllocSlots(f.vol, f.chains[DirAt(dir)], SlotsFor(name)).2;
    if p.Some? then p.value + SlotsFor(name) - 1 else 0
  }

  /** The entry a successful creation adds. */
  ghost predicate NewEntry(name: Name, bytes: seq<Byte>, es: seq<Entry>, e: Entry) {
    && !IsDir(e.short) && SizeOfSlot(e.short) == |bytes| % U32
    && (!ValidSfn(name) && LongAscii(name) ==> e.name == name)
    && (ValidSfn(name) ==>
          (e.name == name <==> !Mixed(Base(name)) && !Mixed(Ext(name)) && (HasDot(name) ==> Ext(name) != [])))
    && (if ValidSfn(name) then e.short[..11] == EncodeSfn(name) else !Taken(es, e.short[..11]))
  }

  lemma NewEntryOk(f: Fs, dir: nat, name: Name, bytes: seq<Byte>, p: nat, cs: seq<nat>, chains: Chains)
    requires Inv(f) && DirAt(dir) in f.chains && AliasFor(Entries(f, dir), name).Some? && FirstOf(cs) < U32
    requires cs == [] ==> bytes == []
    requires cs != [] ==> FirstOf(cs) != 0 && |bytes| <= |cs| * f.vol.clusterBytes
    requires chains == Stored(f.chains, FileAt(dir, p + SlotsFor(name) - 1), cs)
    ensures var news := EntryFor(name, AliasFor(Entries(f, dir), name).value, FirstOf(cs), |bytes|);
            && EntrySlots(news) && |news| == SlotsFor(name) && NewEntry(name, bytes, Entries(f, dir), EntryOf(news, p))
            && EntryOk(f.vol.clusterBytes, chains, dir, EntryOf(news, p)) && !IsDir(EntryOf(news, p).short)
  {
    hide EntryFor, AliasFor, Scan, EntrySlots, FirstOfSlot, SizeOfSlot, Mixed, HasDot, Taken, Standard, NameOf,
         SlotsFor, ValidSfn, LongAscii, Entries, Base, Ext, DirOk, OwnerOk, Sound;
    EntryForIs(Entries(f, dir), name, FirstOf(cs), |bytes|, p);
  }

  /** The listing with one more entry, that one. */
  ghost predicate Adds(f: Fs, g: Fs, dir: nat, name: Name, bytes: seq<Byte>)
    requires Inv(f) && Inv(g) && DirAt(dir) in f.chains && DirAt(dir) in g.chains
  {
    exists e: Entry :: e in Entries(g, dir) && e.at == Place(f, dir, name) && NewEntry(name, bytes, Entries(f, dir), e)
                       && Entries(g, dir) == Inserted(Entries(f, dir), e)
                       && forall q :: q in Entries(f, dir) ==> q.at != e.at
  }

  /** What a creation does: one new entry and nothing else, or nothing that is listed. */
  ghost predicate Creation(f: Fs, g: Fs, ok: bool, dir: nat, name: Name, bytes: seq<Byte>, x: nat)
    requires Inv(f) && Inv(g) && DirAt(dir) in f.chains && DirAt(dir) in g.chains
  {
    if ok then Preserves(f, g, dir, Place(f, dir, name)) && Adds(f, g, dir, name, bytes)
    else Preserves(f, g, dir, x) && Entries(g, dir) == Entries(f, dir)
  }

  lemma CreateKeeps(f: Fs, dir: nat, name: Name, bytes: seq<Byte>, x: nat)
    requires Inv(f) && DirAt(dir) in f.chains
    ensures var (g, ok) := Create(f, dir, name, bytes);
            Inv(g) && DirAt(dir) in g.chains && Creation(f, g, ok, dir, name, bytes, x)
  {
    hide AllocSlots, DirOk, OwnerOk, Sound, Scan, WriteData, EntryFor, AliasFor, FirstRun, Touch, EntrySlots, EntryOk,
         NewEntry, Inserted, Preserves, Chain;
    var alias := AliasFor(Entries(f, dir), name);
    PreservesRefl(f, dir, x);
    if alias.Some? {
      SoundFits(f.vol, f.chains, DirAt(dir));
      AllocSlotsKeeps(f.vol, f.chains, DirAt(dir), SlotsFor(name));
      var (u, ch, p) := AllocSlots(f.vol, f.chains[DirAt(dir)], SlotsFor(name));
      RoomCommits(f, dir, SlotsFor(name), u, ch, p, u, x);
      if p.Some? { CreateInRoom(f, dir, name, bytes, u, ch, p, x); }
    }
  }

  lemma PreservesRefl(f: Fs, dir: nat, x: nat)
    requires Sound(f.vol, f.chains)
    ensures Preserves(f, f, dir, x)
  {
    hide Sound, Entries;
  }

  lemma CreateInRoom(f: Fs, dir: nat, name: Name, bytes: seq<Byte>, u: Vol, ch: seq<nat>, p: Option<nat>, x: nat)
    requires Inv(f) && DirAt(dir) in f.chains && AliasFor(Entries(f, dir), name).Some?
             && DirChain(f.vol, f.chains[DirAt(dir)])
    requires (u, ch, p) == AllocSlots(f.vol, f.chains[DirAt(dir)], SlotsFor(name)) && p.Some?
    ensures var (g, ok) := Create(f, dir, name, bytes);
            Inv(g) && DirAt(dir) in g.chains && Creation(f, g, ok, dir, name, bytes, x)
  {
    hide AllocSlots, DirOk, OwnerOk, Sound, Scan, WriteData, EntryFor, AliasFor, FirstRun, Touch, EntrySlots, EntryOk,
         NewEntry, Inserted, Preserves, Chain;
    AllocSlotsKeeps(f.vol, f.chains, DirAt(dir), SlotsFor(name));
    var roomy := f.chains[DirAt(dir) := ch];
    var h := Fs(u, roomy);
    var at := p.value + SlotsFor(name) - 1;
    var o := FileAt(dir, at);
    RoomCommits(f, dir, SlotsFor(name), u, ch, p, u, at);
    NoChainThere(h, dir, p.value, SlotsFor(name));
    SoundFits(u, roomy, DirAt(dir));
    StoreKeeps(u, roomy, o, bytes);
    var (w, cs, ok) := WriteData(u, bytes);
    assert roomy - {o} == roomy;
    if !ok {
      RoomCommits(f, dir, SlotsFor(name), u, ch, p, w, x);
    } else {
      var g := Create(f, dir, name, bytes).0;
      hide Create;
      CreateStored(f, h, g, dir, name, bytes, p.value, cs, w);
    }
  }

  lemma CreateStored(f: Fs, h: Fs, g: Fs, dir: nat, name: Name, bytes: seq<Byte>, p: nat, cs: seq<nat>, w: Vol)
    requires Inv(f) && Inv(h) && DirAt(dir) in f.chains && DirAt(dir) in h.chains
             && AliasFor(Entries(f, dir), name).Some?
    requires Entries(h, dir) == Entries(f, dir) && p + SlotsFor(name) - 1 == Place(f, dir, name)
    requires Preserves(f, h, dir, p + SlotsFor(name) - 1) && FirstRun(SlotsOf(h, dir), SlotsFor(name), p)
    requires var o := FileAt(dir, p + SlotsFor(name) - 1);
             o !in h.chains && h.chains - {o} == h.chains && DataStored(h.vol, h.chains, o, bytes, w, cs, true)
    requires var news := EntryFor(name, AliasFor(Entries(f, dir), name).value, FirstOf(cs), |bytes|);
             g == Fs(Touch(w, h.chains[DirAt(dir)], NewWrites(p, news)),
                     Stored(h.chains, FileAt(dir, p + |news| - 1), cs))
    ensures Inv(g) && DirAt(dir) in g.chains && Preserves(f, g, dir, Place(f, dir, name))
            && Adds(f, g, dir, name, bytes)
  {
    hide DirOk, OwnerOk, Sound, Scan, EntryFor, AliasFor, FirstRun, Touch, EntrySlots, EntryOk, NewEntry, Inserted,
         Preserves, Place, SlotsOf, SlotsFor, ValidSfn, Entries, SameDirs, SameFiles, Concat, Created, NameOf;
    var news := EntryFor(name, AliasFor(Entries(f, dir), name).value, FirstOf(cs), |bytes|);
    NewEntryOk(h, dir, name, bytes, p, cs, Stored(h.chains, FileAt(dir, p + SlotsFor(name) - 1), cs));
    NoChainThere(h, dir, p, SlotsFor(name));
    CreateSlots(h, g, dir, p, news, cs, w);
    CreateCommits(h, g, dir, p, news);
    PreservesTrans(f, h, g, dir, p + SlotsFor(name) - 1);
  }

  lemma NoChainThere(f: Fs, dir: nat, p: nat, n: nat)
    requires Inv(f) && DirAt(dir) in f.chains && n > 0 && FirstRun(SlotsOf(f, dir), n, p)
    ensures FileAt(dir, p + n - 1) !in f.chains && p + n <= |SlotsOf(f, dir)|
  {
    hide Scan, SlotsOf, EntryOk, Sound, RunState;
    assert DirOk(f, dir);
    RoomOf(SlotsOf(f, dir), n, p);
    NothingThere(SlotsOf(f, dir), p, n);
    assert FileAt(dir, p + n - 1) in f.chains ==> OwnerOk(f, FileAt(dir, p + n - 1));
  }

  // ------------------------------------------------------------ file contents

  lemma TouchElsewhere(w: Vol, chains: Chains, d: nat, ws: seq<SlotWrite>, o: Owner)
    requires Sound(w, chains) && DirAt(d) in chains && o in chains && o != DirAt(d)
    ensures SameBytes(w, Touch(w, chains[DirAt(d)], ws), chains[o])
  {
    hide SetSlots, Sound;
    if DirFits(w, chains[DirAt(d)]) && WritesFit(ws, |chains[DirAt(d)]| * Per(w)) {
      SetSlotsKeeps(w, chains, DirAt(d), ws);
    }
  }

  /** What a 32-bit size field keeps of some bytes: all of them when they are fewer than 2^32. */
  function CutTo32(bytes: seq<Byte>): (r: seq<Byte>)
    ensures |r| == |bytes| % U32 && r <= bytes && (r == bytes <==> |bytes| < U32)
  {
    bytes[..|bytes| % U32]
  }

  /** The entry is a file of exactly these bytes, cut at the 32-bit size. */
  ghost predicate HoldsBytes(g: Fs, dir: nat, r: Entry, bytes: seq<Byte>) {
    && Inv(g) && DirAt(dir) in g.chains && r in Entries(g, dir) && !IsDir(r.short)
    && Contents(g, dir, r) == CutTo32(bytes)
  }

  /** A file whose chain was just stored reads back as the bytes, cut at the 32-bit size. */
  lemma StoredContents(v: Vol, kept: Chains, g: Fs, dir: nat, r: Entry, bytes: seq<Byte>, w: Vol, cs: seq<nat>)
    requires Inv(g) && DirAt(dir) in g.chains && r in Entries(g, dir) && !IsDir(r.short)
             && SizeOfSlot(r.short) == |bytes| % U32
    requires DataStored(v, kept, FileAt(dir, r.at), bytes, w, cs, true)
    requires if cs == [] then FileAt(dir, r.at) !in g.chains
             else FileAt(dir, r.at) in g.chains && g.chains[FileAt(dir, r.at)] == cs && SameBytes(w, g.vol, cs)
    ensures HoldsBytes(g, dir, r, bytes)
  {
    hide Scan, SlotsOf, Sound, OwnerOk, WellFormed, Standard, FirstOfSlot, SizeOfSlot, AllSame;
    assert DirOk(g, dir) && EntryOk(g.vol.clusterBytes, g.chains, dir, r);
    if cs != [] {
      ConcatFrame(w.data, g.vol.data, cs);
      hide Concat;
      var all := Concat(w.data, cs);
      assert all[..|bytes| % U32] == all[..|bytes|][..|bytes| % U32];
    }
  }

  lemma OverwriteContents(f: Fs, g: Fs, dir: nat, e: Entry, bytes: seq<Byte>, r: Entry)
    requires Inv(g) && DirAt(dir) in g.chains && r in Entries(g, dir) && r.at == e.at && !IsDir(r.short)
             && SizeOfSlot(r.short) == |bytes| % U32
    requires Inv(f) && DirAt(dir) in f.chains && e in Entries(f, dir) && !IsDir(e.short)
             && (g, true) == Overwrite(f, dir, e, bytes)
    ensures HoldsBytes(g, dir, r, bytes)
  {
    hide Scan, SlotsOf, Sound, DirOk, OwnerOk, WriteData, FreeChain, UpdatedSlot, EmptiedSlot, Touch, HoldsBytes,
         CaseInfo, SizeOfSlot, Entries, AllSame, Concat;
    FreedKeeps(f, f.vol, dir, e);
    FreedShape(f, dir, e);
    var (w, cs, ok) := WriteData(FreedVol(f, e), bytes);
    OverwriteStored(f, dir, e, bytes, w, cs, ok);
    var o := FileAt(dir, e.at);
    var slot := UpdatedSlot(e.short, CaseInfo(e.name), FirstOf(cs), |bytes|);
    if cs != [] { TouchElsewhere(w, g.chains, dir, [SlotWrite(e.at, slot)], o); }
    StoredContents(FreedVol(f, e), f.chains - {o}, g, dir, r, bytes, w, cs);
  }

  lemma CreateContents(f: Fs, g: Fs, dir: nat, name: Name, bytes: seq<Byte>, r: Entry)
    requires Inv(g) && DirAt(dir) in g.chains && r in Entries(g, dir) && !IsDir(r.short)
             && SizeOfSlot(r.short) == |bytes| % U32
    requires Inv(f) && DirAt(dir) in f.chains && r.at == Place(f, dir, name) && (g, true) == Create(f, dir, name, bytes)
    ensures HoldsBytes(g, dir, r, bytes)
  {
    hide Scan, SlotsOf, Sound, DirOk, OwnerOk, WriteData, AllocSlots, EntryFor, AliasFor, Touch, HoldsBytes, SizeOfSlot,
         AllSame, Concat, NewWrites, FirstRun, SlotsFor, ValidSfn;
    SoundFits(f.vol, f.chains, DirAt(dir));
    AllocSlotsKeeps(f.vol, f.chains, DirAt(dir), SlotsFor(name));
    var (u, ch, p) := AllocSlots(f.vol, f.chains[DirAt(dir)], SlotsFor(name));
    var roomy := f.chains[DirAt(dir) := ch];
    var o := FileAt(dir, p.value + SlotsFor(name) - 1);
    RoomCommits(f, dir, SlotsFor(name), u, ch, p, u, 0);
    NoChainThere(Fs(u, roomy), dir, p.value, SlotsFor(name));
    SoundFits(u, roomy, DirAt(dir));
    StoreKeeps(u, roomy, o, bytes);
    var (w, cs, ok) := WriteData(u, bytes);
    var news := EntryFor(name, AliasFor(Entries(f, dir), name).value, FirstOf(cs), |bytes|);
    EntryForCount(name, AliasFor(Entries(f, dir), name).value, FirstOf(cs), |bytes|);
    if cs != [] { TouchElsewhere(w, g.chains, dir, NewWrites(p.value, news), o); }
    StoredContents(u, roomy, g, dir, r, bytes, w, cs);
  }

  lemma EntryForCount(name: Name, alias: Name, first: nat, size: nat)
    requires |alias| == 11 && (ValidSfn(name) || 1 <= Pieces(name) <= MAX_PIECES)
    ensures |EntryFor(name, alias, first, size)| == SlotsFor(name)
  {
  }
}
