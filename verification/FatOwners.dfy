/**
 Which clusters belong to which file or directory, and what the driver's volume changes do to
 that: freeing an owner's chain, adding a written one, growing a directory, writing its slots.
 A directory is known by its first cluster, a file by its directory and the place of its slot.
 */
module FatOwners {
  import opened Bytes
  import opened Wrappers
  import opened FatModel
  import opened FatProofs
  import opened FatRuns
  import opened FatNames
  import opened FatDirectory
  import opened FatSlots

  datatype Owner = FileAt(dir: nat, at: nat) | DirAt(id: nat)

  type Chains = map<Owner, seq<nat>>

  ghost predicate Disjoint(a: seq<nat>, b: seq<nat>) {
    forall c :: c in a ==> c !in b
  }

  /** Every owner has a well-formed chain and no cluster has two owners. */
  ghost predicate Sound(v: Vol, chains: Chains) {
    && Shape(v) && v.clusterBytes % 32 == 0
    && (forall o :: o in chains ==> Chain(v.fat, chains[o], v.max))
    && (forall o, p :: o in chains && p in chains && o != p ==> Disjoint(chains[o], chains[p]))
  }

  /** The bytes of an owner's clusters are the same in both volumes. */
  ghost predicate SameBytes(v: Vol, w: Vol, ch: seq<nat>) {
    |w.data| == |v.data| && forall c :: c in ch && c < |v.data| ==> w.data[c] == v.data[c]
  }

  ghost predicate SameSizes(v: Vol, w: Vol) { w.max == v.max && w.clusterBytes == v.clusterBytes }

  /** All owners keep their bytes. */
  ghost predicate AllSame(v: Vol, w: Vol, chains: Chains) {
    SameSizes(v, w) && forall p :: p in chains ==> SameBytes(v, w, chains[p])
  }

  // ------------------------------------------------------ owners come and go

  lemma FreeOwner(v: Vol, chains: Chains, o: Owner)
    requires Sound(v, chains) && o in chains
    ensures |chains[o]| > 0 && IsDataCluster(chains[o][0])
    ensures var (w, ok) := FreeChain(v, chains[o][0]);
            ok && Sound(w, chains - {o}) && w.data == v.data && SameSizes(v, w)
  {
    var ch := chains[o];
    FreeWalkOfChain(v.fat, ch, v.max);
    var w := FreeChain(v, ch[0]).0;
    forall p | p in chains && p != o ensures Chain(w.fat, chains[p], v.max) {
      assert Disjoint(chains[p], ch);
      ChainFrame(v.fat, w.fat, chains[p], v.max);
    }
  }

  /** A chain built from free clusters meets no owner and disturbs none. */
  lemma BuiltIsApart(v: Vol, w: Vol, ch: seq<nat>, done: seq<Byte>, chains: Chains, p: Owner)
    requires Sound(v, chains) && Building(v, w, ch, done) && p in chains
    ensures Disjoint(ch, chains[p]) && Disjoint(chains[p], ch) && Chain(w.fat, chains[p], w.max)
            && SameBytes(v, w, chains[p])
  {
    ChainNonZero(v.fat, chains[p], v.max);
    ChainFrame(v.fat, w.fat, chains[p], v.max);
  }

  lemma AddOwner(v: Vol, w: Vol, ch: seq<nat>, bytes: seq<Byte>, chains: Chains, o: Owner)
    requires Sound(v, chains) && o !in chains && ch != [] && Written(v, w, ch, bytes)
    ensures Sound(w, chains[o := ch]) && AllSame(v, w, chains)
  {
    hide Chain;
    forall p | p in chains
      ensures Disjoint(ch, chains[p]) && Disjoint(chains[p], ch) && Chain(w.fat, chains[p], w.max)
              && SameBytes(v, w, chains[p])
    {
      BuiltIsApart(v, w, ch, Concat(w.data, ch), chains, p);
    }
  }

  lemma RollbackKeeps(v: Vol, w: Vol, chains: Chains)
    requires Sound(v, chains) && RolledBack(v, w)
    ensures Sound(w, chains) && AllSame(v, w, chains)
  {
    forall p | p in chains ensures SameBytes(v, w, chains[p]) { ChainNonZero(v.fat, chains[p], v.max); }
  }

  /** What appending a free cluster to one chain does to another. */
  lemma AppendApart(v: Vol, w: Vol, u: Vol, ch: seq<nat>, c: nat, other: seq<nat>)
    requires Shape(v) && Chain(v.fat, ch, v.max) && Chain(v.fat, other, v.max) && Disjoint(ch, other)
             && Disjoint(other, ch)
    requires (w, c) == Allocate(v) && c != 0 && u == Extend(w, ch, c, [])
    ensures Chain(u.fat, other, v.max) && Disjoint(other, ch + [c]) && Disjoint(ch + [c], other)
  {
    hide FindFree;
    ChainNonZero(v.fat, other, v.max);
    ChainFrame(v.fat, u.fat, other, v.max);
  }

  lemma AppendItself(v: Vol, w: Vol, u: Vol, ch: seq<nat>, c: nat)
    requires Shape(v) && Chain(v.fat, ch, v.max)
    requires (w, c) == Allocate(v) && c != 0 && c <= v.max && u == Extend(w, ch, c, [])
    ensures Shape(u) && SameSizes(v, u) && Chain(u.fat, ch + [c], v.max)
    ensures forall x :: 0 <= x <= v.max && v.fat[x] != 0 ==> u.data[x] == v.data[x]
    ensures |u.data| == |v.data| && u.data[c] == Zeros(v.clusterBytes)
  {
    ChainNonZero(v.fat, ch, v.max);
    ExtendChain(v.fat, w.fat, u.fat, ch, c, v.max);
    assert Chunk([], v.clusterBytes) == Zeros(v.clusterBytes);
  }

  /** A directory chain takes one free cluster. */
  lemma AppendKeeps(v: Vol, chains: Chains, o: Owner)
    requires Sound(v, chains) && o in chains && Allocate(v).1 != 0
    ensures var (w, c) := Allocate(v); var ch := chains[o];
            && c <= v.max && |ch| > 0 && ch[|ch| - 1] < |w.fat|
            && Sound(Extend(w, ch, c, []), chains[o := ch + [c]]) && AllSame(v, Extend(w, ch, c, []), chains)
  {
    hide FindFree, Extend, Disjoint, Chain;
    AllocateRange(v);
    var (w, c) := Allocate(v);
    var ch := chains[o];
    ChainEnds(v.fat, ch, v.max);
    var u := Extend(w, ch, c, []);
    AppendItself(v, w, u, ch, c);
    forall p | p in chains && p != o
      ensures Chain(u.fat, chains[p], v.max) && Disjoint(chains[p], ch + [c]) && Disjoint(ch + [c], chains[p])
    {
      AppendApart(v, w, u, ch, c, chains[p]);
    }
    forall p | p in chains ensures SameBytes(v, u, chains[p]) { ChainNonZero(v.fat, chains[p], v.max); }
  }

  lemma ChainEnds(fat: seq<nat>, ch: seq<nat>, max: nat)
    requires Chain(fat, ch, max)
    ensures |ch| > 0 && ch[|ch| - 1] < |fat| && 2 <= ch[0] <= max
  {
  }

  lemma AllSameTrans(v: Vol, u: Vol, w: Vol, a: Chains, b: Chains)
    requires AllSame(v, u, a) && AllSame(u, w, b)
    requires forall p :: p in a ==> p in b && a[p] <= b[p]
    ensures AllSame(v, w, a)
  {
    forall p | p in a ensures SameBytes(v, w, a[p]) {
      assert SameBytes(u, w, b[p]);
      forall c | c in a[p] && c < |v.data| ensures w.data[c] == v.data[c] { assert c in b[p]; }
    }
  }

  // ------------------------------------------------------------- slot writes

  function Per(v: Vol): nat { v.clusterBytes / 32 }

  /** The clusters of a directory exist, differ, and hold whole slots. */
  ghost predicate DirFits(v: Vol, ch: seq<nat>) {
    Whole(v.data, ch, 32 * Per(v)) && Per(v) > 0 && Distinct(ch)
  }

  lemma ChainFits(v: Vol, ch: seq<nat>)
    requires Shape(v) && v.clusterBytes % 32 == 0 && Chain(v.fat, ch, v.max)
    ensures DirFits(v, ch) && 32 * Per(v) == v.clusterBytes
  {
  }

  datatype SlotWrite = SlotWrite(at: nat, slot: Slot)

  ghost predicate WritesFit(ws: seq<SlotWrite>, n: nat) { forall k :: 0 <= k < |ws| ==> ws[k].at < n }

  ghost function SetSlot(v: Vol, ch: seq<nat>, i: nat, s: Slot): (r: Vol)
    requires DirFits(v, ch) && i < |ch| * Per(v)
    ensures DirFits(r, ch) && r == v.(data := r.data) && |r.data| == |v.data|
  {
    PutSlotWhole(v.data, ch, Per(v), i, s, ch);
    v.(data := PutSlot(v.data, ch, Per(v), i, s))
  }

  /** Slot writes one after the other. */
  ghost function SetSlots(v: Vol, ch: seq<nat>, ws: seq<SlotWrite>): (r: Vol)
    requires DirFits(v, ch) && WritesFit(ws, |ch| * Per(v))
    ensures DirFits(r, ch) && r == v.(data := r.data) && |r.data| == |v.data|
    decreases |ws|
  {
    if ws == [] then v
    else
      var n := |ws| - 1;
      SetSlot(SetSlots(v, ch, ws[..n]), ch, ws[n].at, ws[n].slot)
  }

  function UpdateAll(slots: seq<Slot>, ws: seq<SlotWrite>): (r: seq<Slot>)
    requires forall k :: 0 <= k < |ws| ==> ws[k].at < |slots|
    ensures |r| == |slots|
    decreases |ws|
  {
    if ws == [] then slots
    else
      var n := |ws| - 1;
      UpdateAll(slots, ws[..n])[ws[n].at := ws[n].slot]
  }

  /** Seen as slots, the writes are updates of the slot sequence. */
  lemma {:induction false} SetSlotsSlots(v: Vol, ch: seq<nat>, ws: seq<SlotWrite>)
    requires DirFits(v, ch) && WritesFit(ws, |ch| * Per(v))
    ensures |DirSlots(v.data, ch)| == |ch| * Per(v)
    ensures DirSlots(SetSlots(v, ch, ws).data, ch) == UpdateAll(DirSlots(v.data, ch), ws)
    decreases |ws|
  {
    hide DirSlots, PutSlot;
    SlotCount(v.data, ch, Per(v));
    if ws != [] {
      var n := |ws| - 1;
      SetSlotsSlots(v, ch, ws[..n]);
      var u := SetSlots(v, ch, ws[..n]);
      PutSlotChanges(u.data, ch, Per(u), ws[n].at, ws[n].slot);
    }
  }

  lemma SetSlotKeeps(v: Vol, ch: seq<nat>, i: nat, s: Slot, c: nat)
    requires DirFits(v, ch) && i < |ch| * Per(v) && c < |v.data|
    ensures c !in ch ==> SetSlot(v, ch, i, s).data[c] == v.data[c]
    ensures |SetSlot(v, ch, i, s).data[c]| == |v.data[c]|
  {
    SlotPlace(i, Per(v), |ch|);
  }

  lemma {:induction false} SetSlotsElsewhere(v: Vol, ch: seq<nat>, ws: seq<SlotWrite>, c: nat)
    requires DirFits(v, ch) && WritesFit(ws, |ch| * Per(v)) && c < |v.data|
    ensures c !in ch ==> SetSlots(v, ch, ws).data[c] == v.data[c]
    ensures |SetSlots(v, ch, ws).data[c]| == |v.data[c]|
    decreases |ws|
  {
    if ws != [] {
      var n := |ws| - 1;
      SetSlotsElsewhere(v, ch, ws[..n], c);
      SetSlotKeeps(SetSlots(v, ch, ws[..n]), ch, ws[n].at, ws[n].slot, c);
    }
  }

  /** Slot writes in one directory leave the table and every other owner alone. */
  lemma SetSlotsKeeps(v: Vol, chains: Chains, o: Owner, ws: seq<SlotWrite>)
    requires Sound(v, chains) && o in chains && WritesFit(ws, |chains[o]| * Per(v))
    ensures DirFits(v, chains[o])
    ensures var w := SetSlots(v, chains[o], ws);
            Sound(w, chains) && SameSizes(v, w) && forall p :: p in chains && p != o ==> SameBytes(v, w, chains[p])
  {
    ChainFits(v, chains[o]);
    var ch, w := chains[o], SetSlots(v, chains[o], ws);
    hide Chain, SetSlots;
    forall c | 0 <= c < |v.data| ensures (c !in ch ==> w.data[c] == v.data[c]) && |w.data[c]| == |v.data[c]| {
      SetSlotsElsewhere(v, ch, ws, c);
    }
    forall p | p in chains && p != o ensures SameBytes(v, w, chains[p]) { assert Disjoint(chains[p], ch); }
  }

  // ------------------------------------------------------------ finding room

  ghost predicate DirChain(v: Vol, ch: seq<nat>) {
    Shape(v) && v.clusterBytes % 32 == 0 && Chain(v.fat, ch, v.max)
  }

  lemma AppendDirChain(v: Vol, ch: seq<nat>)
    requires DirChain(v, ch) && Allocate(v).1 != 0
    ensures var (w, c) := Allocate(v);
            && c <= v.max && |ch| > 0 && ch[|ch| - 1] < |w.fat|
            && DirChain(Extend(w, ch, c, []), ch + [c]) && SameSizes(v, Extend(w, ch, c, []))
            && |Extend(w, ch, c, []).fat| == |v.fat| && NonZero(Extend(w, ch, c, []).fat) > NonZero(v.fat)
  {
    hide FindFree, Chain;
    AllocateRange(v);
    ChainEnds(v.fat, ch, v.max);
    var (w, c) := Allocate(v);
    var u := Extend(w, ch, c, []);
    AppendItself(v, w, u, ch, c);
    NonZeroUpdate(v.fat, c, END_OF_CHAIN);
    NonZeroUpdate(w.fat, ch[|ch| - 1], c);
  }

  /** allocate_directory_slots: the first run of free slots, with clusters appended until there is
      one; no cluster left means no run. */
  ghost function AllocSlots(v: Vol, ch: seq<nat>, needed: nat): (Vol, seq<nat>, Option<nat>)
    requires DirChain(v, ch) && needed > 0
    decreases |v.fat| - NonZero(v.fat)
  {
    ChainFits(v, ch);
    var found := FindRun(DirSlots(v.data, ch), needed, 0);
    if found.Some? then (v, ch, found)
    else
      var (w, c) := Allocate(v);
      if c == 0 then (v, ch, None)
      else
        AppendDirChain(v, ch);
        AllocSlots(Extend(w, ch, c, []), ch + [c], needed)
  }

  /** The conclusion of AllocSlotsKeeps. */
  ghost predicate Roomed(v: Vol, chains: Chains, o: Owner, needed: nat, w: Vol, ch: seq<nat>, p: Option<nat>)
    requires o in chains
  {
    && Sound(w, chains[o := ch]) && AllSame(v, w, chains) && chains[o] <= ch
    && DirFits(v, chains[o]) && DirFits(w, ch) && Grown(DirSlots(v.data, chains[o]), DirSlots(w.data, ch))
    && (p.Some? ==> FirstRun(DirSlots(w.data, ch), needed, p.value))
  }

  lemma AppendGrows(v: Vol, ch: seq<nat>)
    requires DirChain(v, ch) && Allocate(v).1 != 0
    ensures var (w, c) := Allocate(v);
            && c <= v.max && |ch| > 0 && ch[|ch| - 1] < |w.fat| && DirFits(v, ch)
            && DirFits(Extend(w, ch, c, []), ch + [c])
            && Grown(DirSlots(v.data, ch), DirSlots(Extend(w, ch, c, []).data, ch + [c]))
  {
    hide FindFree, Chain, Extend;
    AllocateRange(v);
    var (w, c) := Allocate(v);
    ChainEnds(v.fat, ch, v.max);
    var u := Extend(w, ch, c, []);
    AppendItself(v, w, u, ch, c);
    ChainFits(v, ch);
    ChainFits(u, ch + [c]);
    ChainNonZero(v.fat, ch, v.max);
    AppendSlots(v.data, u.data, ch, c, Per(v));
  }

  lemma {:induction false} AllocSlotsKeeps(v: Vol, chains: Chains, o: Owner, needed: nat)
    requires Sound(v, chains) && o in chains && needed > 0
    ensures DirChain(v, chains[o])
    ensures var (w, ch, p) := AllocSlots(v, chains[o], needed); Roomed(v, chains, o, needed, w, ch, p)
    decreases |v.fat| - NonZero(v.fat)
  {
    hide Chain, Extend, Allocate, DirSlots, FindRun, FirstRun, Disjoint;
    assert chains[o := chains[o]] == chains;
    ChainFits(v, chains[o]);
    if FindRun(DirSlots(v.data, chains[o]), needed, 0).None? && Allocate(v).1 != 0 {
      RoomAfterAppend(v, chains, o, needed);
    }
  }

  lemma {:induction false} RoomAfterAppend(v: Vol, chains: Chains, o: Owner, needed: nat)
    requires Sound(v, chains) && o in chains && needed > 0 && DirChain(v, chains[o]) && DirFits(v, chains[o])
    requires FindRun(DirSlots(v.data, chains[o]), needed, 0).None? && Allocate(v).1 != 0
    ensures var (w, ch, p) := AllocSlots(v, chains[o], needed); Roomed(v, chains, o, needed, w, ch, p)
    decreases |v.fat| - NonZero(v.fat), 0
  {
    hide Chain, Extend, Allocate, DirSlots, FindRun, FirstRun, Disjoint, Sound;
    AllocateRange(v);
    AppendKeeps(v, chains, o);
    AppendGrows(v, chains[o]);
    AppendDirChain(v, chains[o]);
    var (x, c) := Allocate(v);
    var u, next := Extend(x, chains[o], c, []), chains[o := chains[o] + [c]];
    AllocSlotsKeeps(u, next, o, needed);
    var (w, ch, p) := AllocSlots(u, next[o], needed);
    assert next[o := ch] == chains[o := ch];
    AllSameTrans(v, u, w, chains, next);
    GrownTrans(DirSlots(v.data, chains[o]), DirSlots(u.data, next[o]), DirSlots(w.data, ch));
  }
}
