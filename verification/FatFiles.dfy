/**
 Files on a volume. What files there are, where they start and how long they are is read from
 the slots of the directories themselves; `chains` says which clusters each directory and each
 file owns. write_file and remove_file act on a directory, known by its first cluster, and a name in it.
 */
module FatFiles {
  import opened Bytes
  import opened FatModel
  import opened FatProofs
  import opened FatNames
  import opened FatDirectory
  import opened FatCreate
  import opened FatSlots
  import opened FatOwners

  datatype Fs = Fs(vol: Vol, chains: Chains)

  // --------------------------------------------------------------- invariant

  /** The slots of a directory, as they are on the volume. */
  ghost function SlotsOf(f: Fs, d: nat): seq<Slot>
    requires Sound(f.vol, f.chains) && DirAt(d) in f.chains
  {
    ChainFits(f.vol, f.chains[DirAt(d)]);
    DirSlots(f.vol.data, f.chains[DirAt(d)])
  }

  /** What the directory scan reports. */
  ghost function Entries(f: Fs, d: nat): seq<Entry>
    requires Sound(f.vol, f.chains) && DirAt(d) in f.chains
  {
    Scan(SlotsOf(f, d), 0, [])
  }

  /** Start and size in a file's slot fit the chain it owns. */
  ghost predicate EntryOk(clusterBytes: nat, chains: Chains, d: nat, e: Entry) {
    var o, first, size := FileAt(d, e.at), FirstOfSlot(e.short), SizeOfSlot(e.short);
    && Standard(e.short[..11])
    && if first == 0 then o !in chains && size == 0
       else o in chains && |chains[o]| > 0 && chains[o][0] == first && size <= |chains[o]| * clusterBytes
  }

  ghost predicate FilesOk(f: Fs, d: nat)
    requires Sound(f.vol, f.chains) && DirAt(d) in f.chains
  {
    forall e :: e in Entries(f, d) && !IsDir(e.short) ==> EntryOk(f.vol.clusterBytes, f.chains, d, e)
  }

  ghost predicate DirOk(f: Fs, d: nat)
    requires Sound(f.vol, f.chains) && DirAt(d) in f.chains
  {
    |f.chains[DirAt(d)]| > 0 && f.chains[DirAt(d)][0] == d && WellFormed(SlotsOf(f, d)) && FilesOk(f, d)
  }

  ghost predicate HasFile(es: seq<Entry>, at: nat) { exists e :: e in es && e.at == at && !IsDir(e.short) }

  /** A file's chain belongs to a file the directory lists. */
  ghost predicate OwnerOk(f: Fs, o: Owner)
    requires Sound(f.vol, f.chains)
  {
    o.FileAt? ==> DirAt(o.dir) in f.chains && HasFile(Entries(f, o.dir), o.at)
  }

  ghost predicate Inv(f: Fs) {
    && Sound(f.vol, f.chains)
    && (forall d :: DirAt(d) in f.chains ==> DirOk(f, d))
    && (forall o :: o in f.chains ==> OwnerOk(f, o))
  }

  /** A file's bytes: the first `size` bytes of its clusters. */
  ghost function Contents(f: Fs, d: nat, e: Entry): seq<Byte>
    requires Inv(f) && DirAt(d) in f.chains && e in Entries(f, d) && !IsDir(e.short)
  {
    assert DirOk(f, d) && EntryOk(f.vol.clusterBytes, f.chains, d, e);
    if FirstOfSlot(e.short) == 0 then []
    else
      var ch := f.chains[FileAt(d, e.at)];
      ConcatLength(f.vol.data, ch, f.vol.clusterBytes);
      Concat(f.vol.data, ch)[..SizeOfSlot(e.short)]
  }

  // ------------------------------------------------------------ what is kept

  /** Directories other than `dir` keep chain and bytes; `dir` keeps its first cluster. */
  ghost predicate SameDirs(f: Fs, g: Fs, dir: nat) {
    && (forall d :: DirAt(d) in f.chains <==> DirAt(d) in g.chains)
    && (forall d :: DirAt(d) in f.chains && d != dir ==>
          g.chains[DirAt(d)] == f.chains[DirAt(d)] && SameBytes(f.vol, g.vol, f.chains[DirAt(d)]))
  }

  /** Files other than o keep chain and bytes, and there are no new chains. */
  ghost predicate SameFiles(f: Fs, g: Fs, o: Owner) {
    && (forall q :: q in f.chains && q.FileAt? && q != o ==>
          q in g.chains && g.chains[q] == f.chains[q] && SameBytes(f.vol, g.vol, f.chains[q]))
    && (forall q :: q in g.chains && q.FileAt? && q != o ==> q in f.chains)
  }

  /** The listing changes at most at one place. */
  ghost predicate SameListing(a: seq<Entry>, b: seq<Entry>, at: nat) {
    forall e: Entry :: e.at != at ==> (e in a <==> e in b)
  }

  lemma SameSlots(f: Fs, g: Fs, d: nat)
    requires Sound(f.vol, f.chains) && Sound(g.vol, g.chains) && DirAt(d) in f.chains && DirAt(d) in g.chains
    requires g.chains[DirAt(d)] == f.chains[DirAt(d)] && SameBytes(f.vol, g.vol, f.chains[DirAt(d)])
    ensures SlotsOf(g, d) == SlotsOf(f, d) && Entries(g, d) == Entries(f, d)
  {
    var ch := f.chains[DirAt(d)];
    assert Chain(f.vol.fat, ch, f.vol.max);
    ConcatFrame(f.vol.data, g.vol.data, ch);
  }

  /** Everything an operation at one place of one directory must leave as it was. */
  ghost predicate Preserves(f: Fs, g: Fs, dir: nat, at: nat)
    requires Sound(f.vol, f.chains) && Sound(g.vol, g.chains)
  {
    && (forall d :: DirAt(d) in f.chains <==> DirAt(d) in g.chains)
    && (forall d :: DirAt(d) in f.chains && d != dir ==> Entries(g, d) == Entries(f, d))
    && (DirAt(dir) in f.chains ==> SameListing(Entries(f, dir), Entries(g, dir), at))
    && (forall q :: q in f.chains && q.FileAt? && q != FileAt(dir, at) ==>
          q in g.chains && g.chains[q] == f.chains[q] && SameBytes(f.vol, g.vol, f.chains[q]))
  }

  /** The conditions under which a changed volume is a good one again. */
  ghost predicate Committable(f: Fs, g: Fs, dir: nat, at: nat)
    requires Sound(f.vol, f.chains) && Sound(g.vol, g.chains)
  {
    && DirAt(dir) in f.chains && DirAt(dir) in g.chains && SameSizes(f.vol, g.vol)
    && SameDirs(f, g, dir) && SameFiles(f, g, FileAt(dir, at))
    && |g.chains[DirAt(dir)]| > 0 && g.chains[DirAt(dir)][0] == dir && WellFormed(SlotsOf(g, dir))
    && SameListing(Entries(f, dir), Entries(g, dir), at)
    && (forall e :: e in Entries(g, dir) && e.at == at && !IsDir(e.short) ==>
          EntryOk(g.vol.clusterBytes, g.chains, dir, e))
    && (FileAt(dir, at) in g.chains ==> HasFile(Entries(g, dir), at))
  }

  lemma CommitOther(f: Fs, g: Fs, dir: nat, at: nat, d: nat)
    requires Inv(f) && Sound(g.vol, g.chains) && Committable(f, g, dir, at) && DirAt(d) in g.chains && d != dir
    ensures DirOk(g, d) && Entries(g, d) == Entries(f, d)
  {
    hide Entries, SlotsOf, Sound, SameListing, WellFormed, HasFile;
    assert DirOk(f, d);
    SameSlots(f, g, d);
    forall e | e in Entries(g, d) && !IsDir(e.short) ensures EntryOk(g.vol.clusterBytes, g.chains, d, e) {
      assert EntryOk(f.vol.clusterBytes, f.chains, d, e);
      assert FileAt(d, e.at) != FileAt(dir, at);
    }
  }

  lemma CommitItself(f: Fs, g: Fs, dir: nat, at: nat)
    requires Inv(f) && Sound(g.vol, g.chains) && Committable(f, g, dir, at)
    ensures DirOk(g, dir)
  {
    hide Entries, SlotsOf, Sound, WellFormed, HasFile, SameDirs;
    assert DirOk(f, dir);
    forall e | e in Entries(g, dir) && !IsDir(e.short) ensures EntryOk(g.vol.clusterBytes, g.chains, dir, e) {
      if e.at != at {
        assert e in Entries(f, dir);
        assert EntryOk(f.vol.clusterBytes, f.chains, dir, e);
        assert FileAt(dir, e.at) != FileAt(dir, at);
      }
    }
  }

  lemma CommitOwner(f: Fs, g: Fs, dir: nat, at: nat, o: Owner)
    requires Inv(f) && Sound(g.vol, g.chains) && Committable(f, g, dir, at) && o in g.chains
    ensures OwnerOk(g, o)
  {
    hide Entries, SlotsOf, Sound, WellFormed, EntryOk;
    if o.FileAt? && o != FileAt(dir, at) {
      assert OwnerOk(f, o);
      if o.dir != dir { CommitOther(f, g, dir, at, o.dir); }
    }
  }

  /** One changed place in one directory, everything else kept: the invariant holds again. */
  lemma Commit(f: Fs, g: Fs, dir: nat, at: nat)
    requires Inv(f) && Sound(g.vol, g.chains) && Committable(f, g, dir, at)
    ensures Inv(g) && Preserves(f, g, dir, at)
  {
    hide Entries, SlotsOf, Sound, DirOk, OwnerOk, EntryOk, WellFormed, HasFile, SameListing;
    forall d | DirAt(d) in g.chains ensures DirOk(g, d) {
      if d == dir { CommitItself(f, g, dir, at); } else { CommitOther(f, g, dir, at, d); }
    }
    forall o | o in g.chains ensures OwnerOk(g, o) { CommitOwner(f, g, dir, at, o); }
    forall d | DirAt(d) in f.chains && d != dir ensures Entries(g, d) == Entries(f, d) {
      CommitOther(f, g, dir, at, d);
    }
  }

  lemma PreservesTrans(f: Fs, g: Fs, h: Fs, dir: nat, at: nat)
    requires Sound(f.vol, f.chains) && Sound(g.vol, g.chains) && Sound(h.vol, h.chains)
    requires Preserves(f, g, dir, at) && Preserves(g, h, dir, at)
    ensures Preserves(f, h, dir, at)
  {
    hide Entries, Sound;
  }
}
