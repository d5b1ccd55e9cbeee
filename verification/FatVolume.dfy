/**
 The mounted FAT32 volume: the device's sectors, the 8-sector FAT cache and the FSInfo fields,
 updated in place. Contracts speak of the volume through View(): the entries of FAT copy 0 and
 the bytes of the data clusters.

 The device fails requests for no sector or beyond its end. A request in range succeeds when
 the volume is `reliable`; otherwise it may fail and then changes nothing.
 */
module FatVolume {
  import opened Bytes
  import opened FatModel
  import opened FatDisk
  import opened FatProofs
  import opened FatRuns

  const CACHED: nat := 8

  /** Clusters first .. last, consecutive on disk and along a chain. */
  datatype Run = Run(first: nat, last: nat, count: nat, next: nat)

  /** An open file: where its chain starts, its size, and the place last visited on the chain. */
  class FileDescriptor {
    const valid: bool
    const first: nat
    const size: nat
    var cacheValid: bool
    var cacheIndex: nat
    var cacheValue: nat

    /** build_file_descriptor: a file with bytes but no data cluster is refused. */
    constructor (first: nat, size: nat)
      ensures valid == (size == 0 || IsDataCluster(first)) && !cacheValid
      ensures valid ==> this.first == first && this.size == size
    {
      valid := size == 0 || IsDataCluster(first);
      this.first, this.size := first, size;
      cacheValid, cacheIndex, cacheValue := false, 0, 0;
    }
  }

  class Volume {
    const g: Geometry
    const reliable: bool
    const fsInfoValid: bool
    var disk: seq<Sector>
    var cacheValid: bool
    var cacheFirst: nat
    var cacheCount: nat
    var cache: seq<Sector>
    var freeCount: nat
    var hint: nat

    ghost predicate Valid()
      reads this
    {
      && Good(g) && |disk| == g.sectors && freeCount < U32 && hint < U32
      && (cacheValid ==> Coherent(disk, g, cacheFirst, cacheCount, cache))
      && InfoMatches(disk, g, fsInfoValid, freeCount, hint)
    }

    /** The entries of FAT copy 0. */
    ghost function Fat(): (f: seq<nat>)
      requires Valid()
      reads this
      ensures |f| == g.spf * 128 && g.clusters + 1 < |f|
    {
      FatFits(g, 0, 0);
      FatOf(disk, g)
    }

    ghost function Data(): (d: seq<seq<Byte>>)
      requires Valid()
      reads this
      ensures |d| == g.clusters + 2 && forall c :: 2 <= c < |d| ==> |d[c]| == g.spc * 512
    {
      DataOf(disk, g)
    }

    /** The volume of module FatModel that the sectors represent. */
    ghost function View(): (v: Vol)
      requires Valid()
      reads this
      ensures 2 <= v.max < |v.fat| && |v.data| == v.max + 1 && v.clusterBytes > 0
    {
      Vol(Fat(), Data(), g.clusters + 1, g.spc * 512, freeCount, hint)
    }

    constructor (g: Geometry, disk: seq<Sector>, reliable: bool, fsInfoValid: bool, freeCount: nat, hint: nat)
      requires Good(g) && |disk| == g.sectors && freeCount < U32 && hint < U32
               && InfoMatches(disk, g, fsInfoValid, freeCount, hint)
      ensures Valid() && this.g == g && this.disk == disk && this.reliable == reliable
              && this.fsInfoValid == fsInfoValid
      ensures this.freeCount == freeCount && this.hint == hint
    {
      this.g, this.disk, this.reliable, this.fsInfoValid := g, disk, reliable, fsInfoValid;
      this.freeCount, this.hint := freeCount, hint;
      this.cacheValid, this.cacheFirst, this.cacheCount, this.cache := false, 0, 0, [];
    }

    // ----------------------------------------------------------- the device

    method ReadSectors(lba: nat, count: nat) returns (ok: bool, sectors: seq<Sector>)
      ensures ok ==> 0 < count && lba + count <= |disk| && sectors == disk[lba..lba + count]
      ensures reliable ==> ok == (0 < count && lba + count <= |disk|)
    {
      ok, sectors := false, [];
      var works: bool := *;
      if 0 < count && lba + count <= |disk| && (reliable || works) {
        ok, sectors := true, disk[lba..lba + count];
      }
    }

    method WriteSector(lba: nat, s: Sector) returns (ok: bool)
      modifies this`disk
      ensures ok ==> lba < |old(disk)| && disk == old(disk)[lba := s]
      ensures !ok ==> disk == old(disk)
      ensures reliable ==> ok == (lba < |old(disk)|)
    {
      ok := false;
      var works: bool := *;
      if lba < |disk| && (reliable || works) {
        ok, disk := true, disk[lba := s];
      }
    }

    // ------------------------------------------------------------- FAT cache

    predicate Hit(i: nat)
      reads this
    {
      cacheValid && cacheFirst <= i < cacheFirst + cacheCount
    }

    /** A sector of FAT copy 0, from the cache or after filling it. */
    method ReadCachedFatSector(i: nat) returns (ok: bool, sector: Sector)
      requires Valid()
      modifies this`cacheValid, this`cacheFirst, this`cacheCount, this`cache
      ensures Valid()
      ensures ok ==> i < g.spf && FatLba(g, 0, i) < |disk| && sector == disk[FatLba(g, 0, i)]
      ensures reliable ==> ok == (i < g.spf)
    {
      hide Coherent, InfoMatches;
      ok, sector := false, Zeros(512);
      if i >= g.spf { return; }
      if !Hit(i) {
        var first := i / CACHED * CACHED;
        var count := if g.spf - first > CACHED then CACHED else g.spf - first;
        var rest := seq(CACHED - count, _ => Zeros(512));
        CoherentFill(disk, g, first, count, rest);
        var good, sectors := ReadSectors(g.start + g.reserved + first, count);
        if !good { return; }
        cacheValid, cacheFirst, cacheCount := true, first, count;
        cache := sectors + rest;
      }
      CoherentHit(disk, g, cacheFirst, cacheCount, cache, i);
      ok, sector := true, cache[i - cacheFirst];
    }

    /** The cache is transparent: the value is the low 28 bits of the entry in copy 0 on disk. */
    method ReadFatValue(c: nat) returns (ok: bool, value: nat)
      requires Valid()
      modifies this`cacheValid, this`cacheFirst, this`cacheCount, this`cache
      ensures Valid()
      ensures ok ==> c < |Fat()| && value == Fat()[c]
      ensures reliable ==> ok == (c < |Fat()|)
    {
      value := 0;
      hide Coherent, InfoMatches, Word, FatOf;
      EntryPlace(c);
      FatFits(g, 0, 0);
      EntryOfFat(disk, g, c);
      var sector;
      ok, sector := ReadCachedFatSector(c * 4 / 512);
      if ok {
        value := Word(sector, c * 4 % 512) % LOW28;
      }
    }

    /** One copy's sector is read, one entry in it replaced and written back; the cached sector
        follows copy 0. */
    method PutInCopy(copy: nat, c: nat, v: nat) returns (ok: bool)
      requires Valid() && copy < g.fats && c < |Fat()| && v < LOW28
      modifies this`disk, this`cache
      ensures Valid() && (reliable ==> ok) && FatLba(g, copy, c / 128) < |old(disk)|
      ensures disk == if ok then var lba := FatLba(g, copy, c / 128);
              old(disk)[lba := PutEntry(old(disk)[lba], c % 128, v)]
                      else old(disk)
    {
      hide PutEntry, FatOf, DataOf, Word, Coherent, InfoMatches;
      EntryPlace(c);
      var i := c * 4 / 512;
      FatFits(g, copy, i);
      var lba := g.start + g.reserved + copy * g.spf + i;
      var sectors;
      ok, sectors := ReadSectors(lba, 1);
      if !ok { return; }
      assert sectors[0] == disk[lba];
      var sector := PutEntry(sectors[0], c * 4 % 512 / 4, v);
      ghost var before, held := disk, cache;
      InfoStays(disk, g, fsInfoValid, freeCount, hint, lba, sector);
      ok := WriteSector(lba, sector);
      if !ok { return; }
      if cacheValid {
        CoherentAfterPut(before, g, cacheFirst, cacheCount, held, copy, i, sector);
        CoherentSize(before, g, cacheFirst, cacheCount, cache);
        if copy == 0 && Hit(i) {
          cache := cache[i - cacheFirst := sector];
        }
      }
    }

    /** Every copy gets the entry and keeps its own top bits; a failure stops after some copies. */
    method WriteFatValue(c: nat, value: nat) returns (ok: bool, ghost copies: nat)
      requires Valid() && c < |Fat()|
      modifies this`disk, this`cache
      ensures Valid() && (reliable ==> ok)
      ensures copies <= g.fats && (ok ==> copies == g.fats) && disk == PutCopies(old(disk), g, c, value % LOW28, copies)
      ensures ok ==> Fat() == old(Fat())[c := value % LOW28] && (Mirrored(old(disk), g) ==> Mirrored(disk, g))
      ensures Data() == old(Data())
    {
      hide Mirrored, PutEntry, FatOf, DataOf, Word, Coherent, InfoMatches;
      ghost var before := disk;
      var v := value % LOW28;
      var copy: nat := 0;
      while copy < g.fats
        invariant copy <= g.fats && Valid() && disk == PutCopies(before, g, c, v, copy)
      {
        ok := PutInCopy(copy, c, v);
        if !ok {
          copies := copy;
          PutCopiesView(before, g, c, v, copy);
          return;
        }
        copy := copy + 1;
      }
      ok, copies := true, copy;
      PutCopiesView(before, g, c, v, g.fats);
      if Mirrored(before, g) { PutCopiesMirrors(before, g, c, v); }
    }

    // ------------------------------------------------------- the allocator

    /** A write in front of the FATs or in the data region leaves the FAT side as it was. */
    lemma OutsideFats(before: seq<Sector>, lba: nat, s: Sector)
      requires Good(g) && |before| == g.sectors && lba < |before|
      requires lba < g.start + g.reserved || g.start + g.firstData <= lba
      ensures SameFats(before, before[lba := s], g) && FatLba(g, 0, 0) + g.spf <= |before|
      ensures FatOf(before[lba := s], g) == FatOf(before, g)
      ensures Mirrored(before, g) ==> Mirrored(before[lba := s], g)
      ensures cacheValid && Coherent(before, g, cacheFirst, cacheCount, cache) ==>
                Coherent(before[lba := s], g, cacheFirst, cacheCount, cache)
    {
      hide FatOf, Mirrored, Coherent, InfoMatches;
      SameFatsView(before, before[lba := s], g);
      if cacheValid && Coherent(before, g, cacheFirst, cacheCount, cache) {
        CoherentFrame(before, before[lba := s], g, cacheFirst, cacheCount, cache);
      }
    }

    /** The FSInfo sector, if the volume has one, and then the fields in memory. */
    method UpdateFsInfo(count: nat, next: nat) returns (ok: bool)
      requires Valid() && count < U32 && next < U32
      modifies this`disk, this`freeCount, this`hint
      ensures Valid() && (reliable ==> ok) && Fat() == old(Fat()) && Data() == old(Data())
      ensures Mirrored(old(disk), g) ==> Mirrored(disk, g)
      ensures if ok then freeCount == count && hint == next else freeCount == old(freeCount) && hint == old(hint)
      ensures InfoMatches(disk, g, fsInfoValid, freeCount, hint)
    {
      hide FatOf, DataOf, Mirrored, Coherent, Word;
      ok := true;
      if fsInfoValid && g.fsInfo != 0 {
        ghost var before := disk;
        var sector := FsInfoSector(count, next);
        FatFits(g, 0, 0);
        OutsideFats(before, g.start + g.fsInfo, sector);
        WriteElsewhereKeepsData(before, g, g.start + g.fsInfo, sector);
        ok := WriteSector(g.start + g.fsInfo, sector);
        if !ok { return; }
      }
      freeCount, hint := count, next;
    }

    /** One pass of the search: the first zero entry from c on, or max + 1. */
    method SearchFrom(start: nat) returns (ok: bool, c: nat)
      requires Valid() && 2 <= start <= g.clusters + 1
      modifies this`cacheValid, this`cacheFirst, this`cacheCount, this`cache
      ensures Valid() && (reliable ==> ok)
      ensures ok ==> c == Search(Fat(), start, g.clusters + 1)
    {
      hide FatOf, Coherent, InfoMatches;
      c := start;
      while c <= g.clusters + 1
        invariant Valid() && start <= c <= g.clusters + 2
        invariant Search(Fat(), start, g.clusters + 1) == Search(Fat(), c, g.clusters + 1)
      {
        var value;
        ok, value := ReadFatValue(c);
        if !ok { return; }
        if value == 0 { return; }
        c := c + 1;
      }
      ok := true;
    }

    /** Both passes: from the hint on, then from cluster 2. */
    method FindFreeCluster() returns (ok: bool, c: nat)
      requires Valid()
      modifies this`cacheValid, this`cacheFirst, this`cacheCount, this`cache
      ensures Valid() && (reliable ==> ok)
      ensures ok ==> c == FindFree(View())
    {
      hide FatOf, DataOf, Coherent, InfoMatches, Search;
      var max := g.clusters + 1;
      var start := if hint < 2 || hint > max then 2 else hint;
      ok, c := SearchFrom(start);
      if ok && c > max {
        ok, c := SearchFrom(2);
      }
    }

    /** Takes the cluster the two-pass search of FatModel.Allocate finds; fails without device
        errors only when no entry is zero. */
    method AllocateCluster() returns (ok: bool, cluster: nat)
      requires Valid()
      modifies this`disk, this`cacheValid, this`cacheFirst, this`cacheCount, this`cache, this`freeCount, this`hint
      ensures Valid()
      ensures ok ==> cluster != 0 && (View(), cluster) == Allocate(old(View()))
      ensures reliable ==> ok == (Allocate(old(View())).1 != 0)
      ensures !ok && reliable ==> View() == old(View())
      ensures reliable && Mirrored(old(disk), g) ==> Mirrored(disk, g)
    {
      hide FatOf, DataOf, Mirrored, Coherent, InfoMatches, PutCopies, FindFree, CountAfterAlloc;
      var max := g.clusters + 1;
      ok, cluster := FindFreeCluster();
      if !ok { return; }
      if cluster > max { ok := false; return; }
      ghost var n;
      ok, n := WriteFatValue(cluster, END_OF_CHAIN);
      if !ok { return; }
      var count := CountAfterAlloc(freeCount);
      ok := UpdateFsInfo(count, if cluster + 1 > max then 2 else cluster + 1);
    }

    /** One entry is read and then zeroed. */
    method FreeLink(c: nat) returns (ok: bool, next: nat)
      requires Valid()
      modifies this`disk, this`cacheValid, this`cacheFirst, this`cacheCount, this`cache
      ensures Valid() && Data() == old(Data()) && (reliable ==> ok == (c < |Fat()|))
      ensures ok ==> c < |Fat()| && next == old(Fat())[c] && Fat() == old(Fat())[c := 0]
      ensures !ok && reliable ==> Fat() == old(Fat())
      ensures reliable && Mirrored(old(disk), g) ==> Mirrored(disk, g)
    {
      hide FatOf, DataOf, Mirrored, Coherent, InfoMatches, PutCopies;
      ok, next := ReadFatValue(c);
      if !ok { return; }
      ghost var n;
      ok, n := WriteFatValue(c, 0);
    }

    /** The loop terminates on every table, cyclic ones included. */
    method FreeLinks(first: nat) returns (ok: bool, freed: nat)
      requires Valid() && IsDataCluster(first)
      modifies this`disk, this`cacheValid, this`cacheFirst, this`cacheCount, this`cache
      ensures Valid() && Data() == old(Data())
      ensures ok ==> (Fat(), freed, true) == FreeWalk(old(Fat()), first)
      ensures reliable ==> ok == FreeWalk(old(Fat()), first).2 && Fat() == FreeWalk(old(Fat()), first).0
      ensures reliable && Mirrored(old(disk), g) ==> Mirrored(disk, g)
    {
      hide FatOf, DataOf, Mirrored, Coherent, InfoMatches, PutCopies;
      var current, more := first, true;
      ok, freed := true, 0;
      ghost var whole := FreeWalk(Fat(), first);
      while more
        invariant Valid() && Data() == old(Data()) && ok && IsDataCluster(current)
        invariant if more then var (rest, n, good) := FreeWalk(Fat(), current); whole == (rest, n + freed, good)
                  else whole == (Fat(), freed, true)
        invariant reliable && Mirrored(old(disk), g) ==> Mirrored(disk, g)
        decreases more, NonZero(Fat())
      {
        var next;
        ghost var fat := Fat();
        ok, next := FreeLink(current);
        if !ok { return; }
        NonZeroUpdate(fat, current, 0);
        freed := freed + 1;
        if !IsDataCluster(next) { more := false; } else { current := next; }
      }
    }

    /** Does what FatModel.FreeChain says. */
    method FreeClusterChain(first: nat) returns (ok: bool)
      requires Valid() && first < U32
      modifies this`disk, this`cacheValid, this`cacheFirst, this`cacheCount, this`cache, this`freeCount, this`hint
      ensures Valid() && Data() == old(Data())
      ensures ok ==> (View(), true) == FreeChain(old(View()), first)
      ensures reliable ==> (View(), ok) == FreeChain(old(View()), first)
      ensures reliable && Mirrored(old(disk), g) ==> Mirrored(disk, g)
    {
      hide FatOf, DataOf, Mirrored, Coherent, InfoMatches, PutCopies, FreeWalk;
      ok := true;
      if !IsDataCluster(first) { return; }
      var freed;
      ok, freed := FreeLinks(first);
      if !ok { return; }
      var count := if freeCount == UNKNOWN then UNKNOWN else (freeCount + freed) % U32;
      var next := if hint == UNKNOWN then first else if first < hint then first else hint;
      ok := UpdateFsInfo(count, next);
    }

    // ------------------------------------------------------ cluster contents

    /** Sector j of cluster c is replaced and nothing else. */
    method WriteInCluster(c: nat, j: nat, s: Sector) returns (ok: bool)
      requires Valid() && 2 <= c <= g.clusters + 1 && j < g.spc
      modifies this`disk
      ensures Valid() && (reliable ==> ok) && Fat() == old(Fat())
      ensures Mirrored(old(disk), g) ==> Mirrored(disk, g)
      ensures Data() == if ok then old(Data())[c := PutAt(old(Data()[c]), j, s)] else old(Data())
    {
      hide FatOf, DataOf, Mirrored, Coherent, InfoMatches;
      ghost var before := disk;
      ClusterFits(g, c);
      var lba := ClusterLba(g, c) + j;
      OutsideFats(before, lba, s);
      WriteClusterSector(before, g, c, j, s);
      FatFits(g, 0, 0);
      InfoStays(before, g, fsInfoValid, freeCount, hint, lba, s);
      ok := WriteSector(lba, s);
    }

    method ZeroCluster(c: nat) returns (ok: bool)
      requires Valid() && 2 <= c <= g.clusters + 1
      modifies this`disk
      ensures Valid() && (reliable ==> ok) && Fat() == old(Fat())
      ensures Mirrored(old(disk), g) ==> Mirrored(disk, g)
      ensures Data() == old(Data())[c := Data()[c]] && (ok ==> Data()[c] == Chunk([], g.spc * 512))
    {
      hide FatOf, DataOf, Mirrored, Coherent, InfoMatches;
      ghost var before, zeros := Data(), Chunk([], g.spc * 512);
      for j := 0 to g.spc
        invariant Valid() && Fat() == old(Fat()) && (Mirrored(old(disk), g) ==> Mirrored(disk, g))
        invariant Data() == before[c := Data()[c]] && Data()[c][..j * 512] == zeros[..j * 512]
      {
        ghost var was := Data()[c];
        ok := WriteInCluster(c, j, Zeros(512));
        if !ok { return; }
        ChunkSector([], g.spc * 512, j);
        PrefixGrows(was, Data()[c], zeros, j, Zeros(512));
      }
      ok := true;
    }

    /** Zero a cluster just taken and link the chain's last one to it. */
    method LinkZeroed(last: nat, cluster: nat) returns (ok: bool)
      requires Valid() && 2 <= last <= g.clusters + 1 && 2 <= cluster <= g.clusters + 1
      modifies this`disk, this`cache
      ensures Valid() && (reliable ==> ok)
      ensures ok ==> View() == Extend(old(View()), [last], cluster, [])
      ensures reliable && Mirrored(old(disk), g) ==> Mirrored(disk, g)
    {
      hide FatOf, DataOf, Mirrored, Coherent, InfoMatches, PutCopies, Chunk;
      ghost var v := View();
      ok := ZeroCluster(cluster);
      if !ok { return; }
      ghost var n;
      ok, n := WriteFatValue(last, cluster);
      if ok { assert View() == Extend(v, [last], cluster, []); }
    }

    /** A directory chain's last cluster is linked to a new, zeroed one. */
    method AppendDirectoryCluster(last: nat) returns (ok: bool, cluster: nat)
      requires Valid() && 2 <= last <= g.clusters + 1
      modifies this`disk, this`cacheValid, this`cacheFirst, this`cacheCount, this`cache, this`freeCount, this`hint
      ensures Valid()
      ensures ok ==> var (w, c) := Allocate(old(View()));
                     cluster == c && c != 0 && View() == Extend(w, [last], c, [])
      ensures reliable ==> ok == (Allocate(old(View())).1 != 0)
      ensures !ok && reliable ==> View() == old(View())
      ensures reliable && Mirrored(old(disk), g) ==> Mirrored(disk, g)
    {
      hide FatOf, DataOf, Mirrored, Coherent, InfoMatches, FreeChain, Allocate, Extend;
      AllocateRange(View());
      ok, cluster := AllocateCluster();
      if !ok { return; }
      ok := LinkZeroed(last, cluster);
      if !ok { var _ := FreeClusterChain(cluster); }
    }

    // ------------------------------------------------------------- writing

    /** The sector loop of write_file_data: the next bytes, zero-filled to the cluster's end. */
    method FillCluster(c: nat, data: seq<Byte>, from: nat) returns (ok: bool, written: nat)
      requires Valid() && 2 <= c <= g.clusters + 1 && from < |data|
      modifies this`disk
      ensures Valid() && (reliable ==> ok) && Fat() == old(Fat())
      ensures Mirrored(old(disk), g) ==> Mirrored(disk, g)
      ensures Data() == old(Data())[c := Data()[c]] && (ok ==> Data()[c] == Chunk(data[from..], g.spc * 512))
      ensures ok ==> written == if |data| - from < g.spc * 512 then |data| else from + g.spc * 512
    {
      hide FatOf, DataOf, Mirrored, Coherent, InfoMatches, Chunk;
      ghost var before, want := Data(), Chunk(data[from..], g.spc * 512);
      written := from;
      for j := 0 to g.spc
        invariant Valid() && Fat() == old(Fat()) && (Mirrored(old(disk), g) ==> Mirrored(disk, g))
        invariant Data() == before[c := Data()[c]] && Data()[c][..j * 512] == want[..j * 512]
        invariant written == if |data| - from < j * 512 then |data| else from + j * 512
      {
        ghost var was := Data()[c];
        ghost var start := written;
        var chunk := if |data| - written > 512 then 512 else |data| - written;
        var sector: Sector := data[written..written + chunk] + Zeros(512 - chunk);
        written := written + chunk;
        NextSector(data, from, start, g.spc * 512, j, sector);
        ok := WriteInCluster(c, j, sector);
        if !ok { return; }
        PrefixGrows(was, Data()[c], want, j, sector);
      }
      ok := true;
    }

    /** Link the chain's last cluster, if any, to one just taken and fill that one. */
    method LinkFilled(previous: nat, cluster: nat, data: seq<Byte>, from: nat, ghost ch: seq<nat>)
      returns (ok: bool, written: nat)
      requires Valid() && from < |data| && 2 <= cluster <= g.clusters + 1
      requires if ch == [] then previous == 0 else previous == ch[|ch| - 1] && 2 <= previous <= g.clusters + 1
      modifies this`disk, this`cache
      ensures Valid() && (reliable ==> ok)
      ensures ok ==> View() == Extend(old(View()), ch, cluster, data[from..])
      ensures ok ==> written == if |data| - from < g.spc * 512 then |data| else from + g.spc * 512
      ensures reliable && Mirrored(old(disk), g) ==> Mirrored(disk, g)
    {
      hide FatOf, DataOf, Mirrored, Coherent, InfoMatches, PutCopies, Chunk;
      ghost var v := View();
      written := from;
      if previous != 0 {
        ghost var n;
        ok, n := WriteFatValue(previous, cluster);
        if !ok { return; }
      }
      assert View() == v.(fat := if ch == [] then v.fat else v.fat[ch[|ch| - 1] := cluster]);
      ok, written := FillCluster(cluster, data, from);
      if ok { assert View() == Extend(v, ch, cluster, data[from..]); }
    }

    /** One cluster more: allocate, link, fill. */
    method WriteNext(previous: nat, data: seq<Byte>, from: nat, ghost ch: seq<nat>)
      returns (ok: bool, taken: bool, cluster: nat, written: nat)
      requires Valid() && from < |data|
      requires if ch == [] then previous == 0 else previous == ch[|ch| - 1] && 2 <= previous <= g.clusters + 1
      modifies this`disk, this`cacheValid, this`cacheFirst, this`cacheCount, this`cache, this`freeCount, this`hint
      ensures Valid() && (taken ==> cluster != 0 && cluster <= g.clusters + 1)
      ensures ok ==> var (w, c) := Allocate(old(View()));
                     && taken && cluster == c && View() == Extend(w, ch, c, data[from..])
                     && written == if |data| - from < g.spc * 512 then |data| else from + g.spc * 512
      ensures reliable ==> ok == taken == (Allocate(old(View())).1 != 0)
      ensures !ok && reliable ==> View() == old(View())
      ensures reliable && Mirrored(old(disk), g) ==> Mirrored(disk, g)
    {
      hide FatOf, DataOf, Mirrored, Coherent, InfoMatches, Allocate, Extend;
      AllocateRange(View());
      written := from;
      ok, cluster := AllocateCluster();
      taken := ok;
      if !ok { return; }
      ok, written := LinkFilled(previous, cluster, data, from, ch);
    }

    /** Does what FatModel.WriteData says: a chain holding the data, or, out of space, every
        cluster taken given back. */
    method WriteFileData(data: seq<Byte>) returns (ok: bool, first: nat)
      requires Valid()
      modifies this`disk, this`cacheValid, this`cacheFirst, this`cacheCount, this`cache, this`freeCount, this`hint
      ensures Valid()
      ensures ok ==> var (w, ch, good) := WriteData(old(View()), data); good && View() == w && first == FirstOf(ch)
      ensures reliable ==> var (w, ch, good) := WriteData(old(View()), data); ok == good && View() == w
      ensures !ok ==> first == 0
      ensures reliable && Mirrored(old(disk), g) ==> Mirrored(disk, g)
    {
      hide FatOf, DataOf, Mirrored, Coherent, InfoMatches, PutCopies, Allocate, Extend, FreeChain;
      first := 0;
      var previous, written := 0, 0;
      ghost var ch: seq<nat> := [];
      ghost var whole := WriteLoop(View(), [], data);
      while written < |data|
        invariant Valid() && written <= |data| && first == FirstOf(ch)
        invariant if ch == [] then previous == 0 else previous == ch[|ch| - 1] && first != 0
        invariant forall i :: 0 <= i < |ch| ==> 2 <= ch[i] <= g.clusters + 1
        invariant whole == WriteLoop(View(), ch, data[written..]) && (data != [] && written > 0 ==> ch != [])
        invariant reliable && Mirrored(old(disk), g) ==> Mirrored(disk, g)
      {
        AllocateRange(View());
        ghost var v, from := View(), written;
        var taken, cluster;
        ok, taken, cluster, written := WriteNext(previous, data, written, ch);
        if taken && first == 0 { first := cluster; }
        if !ok {
          if first != 0 { var _ := FreeClusterChain(first); }
          first := 0;
          return;
        }
        WriteLoopStep(v, View(), ch, cluster, data, from, written);
        ch := ch + [cluster];
        previous := cluster;
      }
      ok := true;
    }

    // ------------------------------------------------------------- reading

    /** A well-formed chain of this volume. */
    ghost predicate OnDisk(ch: seq<nat>)
      requires Valid()
      reads this
    {
      Chain(Fat(), ch, g.clusters + 1)
    }

    /** Where the chain's cluster k starts in its bytes. */
    ghost function At(k: nat): nat { k * (g.spc * 512) }

    /** The bytes of a chain's clusters. */
    ghost function Bytes(ch: seq<nat>): (b: seq<Byte>)
      requires Valid() && OnDisk(ch)
      reads this
      ensures |b| == |ch| * (g.spc * 512)
    {
      ConcatLength(Data(), ch, g.spc * 512);
      Concat(Data(), ch)
    }

    /** Part of one sector of a cluster. */
    method ReadPart(c: nat, lba: nat, skip: nat, k: nat) returns (ok: bool, bytes: seq<Byte>)
      requires Valid() && 2 <= c <= g.clusters + 1 && ClusterLba(g, c) <= lba < ClusterLba(g, c) + g.spc
               && skip + k <= 512
      ensures (reliable ==> ok) && (lba - ClusterLba(g, c)) * 512 + skip + k <= |Data()[c]|
      ensures ok ==> var at := (lba - ClusterLba(g, c)) * 512 + skip; bytes == Data()[c][at..at + k]
    {
      hide FatOf, DataOf, Coherent, InfoMatches, Join;
      var sectors;
      RunOne(disk, g, c);
      ok, sectors := ReadSectors(lba, 1);
      bytes := [];
      if ok {
        SectorBytes(disk, ClusterLba(g, c), g.spc, lba - ClusterLba(g, c), skip, k);
        bytes := sectors[0][skip..skip + k];
      }
    }

    /** Whole sectors of one or more consecutive clusters' worth of space inside a cluster. */
    method ReadWhole(c: nat, lba: nat, k: nat) returns (ok: bool, bytes: seq<Byte>)
      requires Valid() && 2 <= c <= g.clusters + 1 && 0 < k && ClusterLba(g, c) <= lba
               && lba + k <= ClusterLba(g, c) + g.spc
      ensures (reliable ==> ok) && (lba - ClusterLba(g, c)) * 512 + k * 512 <= |Data()[c]|
      ensures ok ==> var at := (lba - ClusterLba(g, c)) * 512; bytes == Data()[c][at..at + k * 512]
    {
      hide FatOf, DataOf, Coherent, InfoMatches, Join;
      var sectors;
      RunOne(disk, g, c);
      ok, sectors := ReadSectors(lba, k);
      bytes := [];
      if ok {
        SectorRun(disk, ClusterLba(g, c), g.spc, lba - ClusterLba(g, c), k);
        bytes := Join(sectors);
      }
    }

    /** Bytes from a sector boundary on: whole sectors, then a partial last one. */
    method ReadAligned(c: nat, lba: nat, size: nat) returns (ok: bool, bytes: seq<Byte>)
      requires Valid() && 2 <= c <= g.clusters + 1 && ClusterLba(g, c) <= lba
      requires (lba - ClusterLba(g, c)) * 512 + size <= g.spc * 512
      ensures reliable ==> ok
      ensures ok ==> var at := (lba - ClusterLba(g, c)) * 512; bytes == Data()[c][at..at + size]
    {
      hide Valid, ClusterLba;
      ghost var all, at := Data()[c], (lba - ClusterLba(g, c)) * 512;
      var whole, tail := size / 512, size % 512;
      assert whole * 512 + tail == size;
      ok, bytes := true, [];
      if whole > 0 {
        ok, bytes := ReadWhole(c, lba, whole);
        if !ok { return; }
      }
      assert bytes == all[at..at + whole * 512];
      if tail > 0 {
        assert (lba + whole - ClusterLba(g, c)) * 512 == at + whole * 512;
        var last;
        ok, last := ReadPart(c, lba + whole, 0, tail);
        if !ok { return; }
        SliceSplit(all, at, at + whole * 512, at + size);
        bytes := bytes + last;
      }
    }

    /** Bytes inside one cluster: a partial first sector, then from the next boundary on. */
    method ReadClusterBytes(c: nat, off: nat, size: nat) returns (ok: bool, bytes: seq<Byte>)
      requires Valid() && (IsDataCluster(c) ==> c <= g.clusters + 1)
      ensures ok && size == 0 ==> bytes == []
      ensures ok && size > 0 ==> IsDataCluster(c) && off + size <= g.spc * 512 && bytes == Data()[c][off..off + size]
      ensures reliable ==> ok == (size == 0 || (IsDataCluster(c) && off + size <= g.spc * 512))
    {
      hide Valid, ClusterLba;
      if size == 0 { return true, []; }
      if !IsDataCluster(c) || off >= g.spc * 512 || size > g.spc * 512 - off { return false, []; }
      var lba := ClusterLba(g, c) + off / 512;
      var skip := off % 512;
      assert off == (lba - ClusterLba(g, c)) * 512 + skip && lba < ClusterLba(g, c) + g.spc;
      if skip == 0 {
        ok, bytes := ReadAligned(c, lba, size);
        return;
      }
      var chunk := if 512 - skip > size then size else 512 - skip;
      ok, bytes := ReadPart(c, lba, skip, chunk);
      if !ok || chunk == size { return; }
      var rest;
      assert (lba + 1 - ClusterLba(g, c)) * 512 == off + chunk;
      ok, rest := ReadAligned(c, lba + 1, size - chunk);
      if !ok { return; }
      SliceSplit(Data()[c], off, off + chunk, off + size);
      bytes := bytes + rest;
    }

    /** A run is a stretch ch[k..k + count] of the chain whose clusters are consecutive. */
    ghost predicate RunOf(run: Run, maxCount: nat, ch: seq<nat>, k: nat) {
      && 1 <= run.count <= maxCount && k + run.count <= |ch| && run.first == ch[k]
      && run.last == run.first + run.count - 1
      && Stretch(ch, k, run.count, run.first)
      && (if run.count == maxCount then run.next == END_OF_CHAIN
          else if k + run.count < |ch| then run.next == ch[k + run.count]
          else run.next >= END_OF_CHAIN)
    }

    /** The longest such stretch from k on, up to maxCount clusters. */
    method CollectClusterRun(first: nat, maxCount: nat, ghost ch: seq<nat>, ghost k: nat) returns (ok: bool, run: Run)
      requires Valid() && (IsDataCluster(first) ==> OnDisk(ch) && k < |ch| && ch[k] == first)
      modifies this`cacheValid, this`cacheFirst, this`cacheCount, this`cache
      ensures Valid() && (reliable ==> ok == (IsDataCluster(first) && maxCount > 0))
      ensures ok ==> IsDataCluster(first) && RunOf(run, maxCount, ch, k)
    {
      hide FatOf, DataOf, Coherent, InfoMatches, Chain, Stretch;
      run := Run(first, first, 1, END_OF_CHAIN);
      if !IsDataCluster(first) || maxCount == 0 { return false, run; }
      StretchOne(ch, k, first);
      while run.count < maxCount
        invariant Valid() && 1 <= run.count <= maxCount && k + run.count <= |ch| && run.next == END_OF_CHAIN
        invariant run.first == first && run.last == first + run.count - 1
        invariant Stretch(ch, k, run.count, first)
        decreases maxCount - run.count
      {
        var candidate;
        LinkAfter(Fat(), ch, g.clusters + 1, k, run.count, first);
        ok, candidate := ReadFatValue(run.last);
        if !ok { return; }
        if candidate != run.last + 1 {
          run := run.(next := candidate);
          return;
        }
        run := run.(last := candidate, count := run.count + 1);
      }
      ok := true;
    }

    /** A run read in one request gives the same bytes as its clusters along the chain. */
    method ReadRun(first: nat, maxCount: nat, ghost ch: seq<nat>, ghost k: nat)
      returns (ok: bool, run: Run, bytes: seq<Byte>)
      requires Valid() && OnDisk(ch) && k < |ch| && ch[k] == first && maxCount > 0
      modifies this`cacheValid, this`cacheFirst, this`cacheCount, this`cache
      ensures Valid() && OnDisk(ch) && (reliable ==> ok)
      ensures ok ==> RunOf(run, maxCount, ch, k) && 1 <= run.count <= maxCount && k + run.count <= |ch|
      ensures ok ==> At(k) <= At(k + run.count) <= |Bytes(ch)|
      ensures ok ==> bytes == Bytes(ch)[At(k)..At(k + run.count)]
    {
      hide FatOf, DataOf, Coherent, InfoMatches, Join, Concat, Stretch;
      bytes := [];
      ok, run := CollectClusterRun(first, maxCount, ch, k);
      if !ok { return; }
      ghost var stretch := ch[k..k + run.count];
      StretchIsRun(ch, k, run.count, first, g.clusters + 1);
      RunRead(disk, g, stretch);
      ConcatSlice(Data(), ch, g.spc * 512, k, k + run.count);
      var sectors;
      ok, sectors := ReadSectors(ClusterLba(g, run.first), run.count * g.spc);
      if ok { bytes := Join(sectors); }
    }

    /** Where the chain goes on after a run: the link already seen, or read again. */
    method AfterRun(run: Run, maxCount: nat, ghost ch: seq<nat>, ghost k: nat) returns (ok: bool, next: nat)
      requires Valid() && OnDisk(ch) && RunOf(run, maxCount, ch, k)
      modifies this`cacheValid, this`cacheFirst, this`cacheCount, this`cache
      ensures Valid() && OnDisk(ch) && (reliable ==> ok)
      ensures ok ==> if k + run.count < |ch| then IsDataCluster(next) && next == ch[k + run.count]
              else !IsDataCluster(next)
    {
      hide FatOf, DataOf, Coherent, InfoMatches, Stretch, Chain;
      ok, next := true, run.next;
      LinkAfter(Fat(), ch, g.clusters + 1, k, run.count, run.first);
      if !IsDataCluster(next) {
        ok, next := ReadFatValue(run.last);
      }
    }

    /** The first bytes of the chain's cluster k. */
    method ReadTail(cluster: nat, size: nat, ghost ch: seq<nat>, ghost k: nat) returns (ok: bool, tail: seq<Byte>)
      requires Valid() && OnDisk(ch) && k < |ch| && cluster == ch[k] && 0 < size < g.spc * 512
      ensures (reliable ==> ok) && At(k) + size <= |Bytes(ch)|
      ensures ok ==> tail == Bytes(ch)[At(k)..At(k) + size]
    {
      hide FatOf, DataOf, Coherent, InfoMatches, Concat, Chain;
      InsideCluster(ch, k, 0, size);
      ok, tail := ReadClusterBytes(cluster, 0, size);
    }

    /** The whole file, by runs and a tail: the first `size` bytes of the chain. */
    method ReadFileData(first: nat, size: nat, ghost ch: seq<nat>) returns (ok: bool, data: seq<Byte>)
      requires Valid() && (IsDataCluster(first) ==> OnDisk(ch) && ch[0] == first)
      modifies this`cacheValid, this`cacheFirst, this`cacheCount, this`cache
      ensures Valid() && (IsDataCluster(first) ==> OnDisk(ch))
      ensures ok && size == 0 ==> data == []
      ensures ok && size > 0 ==> IsDataCluster(first) && size <= |Bytes(ch)| && data == Bytes(ch)[..size]
      ensures reliable ==> ok == (size == 0 || (IsDataCluster(first) && size <= |Bytes(ch)|))
    {
      hide FatOf, DataOf, Coherent, InfoMatches, Concat, RunOf, Chain;
      data := [];
      if size == 0 { return true, []; }
      if !IsDataCluster(first) { return false, []; }
      var clusterBytes := g.spc * 512;
      ghost var all := Bytes(ch);
      ChainNonEmpty(Fat(), ch, g.clusters + 1);
      var copied: nat, cluster := 0, first;
      ghost var k: nat := 0;
      while copied < size
        invariant Valid() && OnDisk(ch) && Bytes(ch) == all && k < |ch| && cluster == ch[k]
        invariant copied == k * clusterBytes <= |all| && copied <= size && data == all[..copied]
        decreases size - copied
      {
        var remaining := size - copied;
        if remaining < clusterBytes {
          var tail;
          ok, tail := ReadTail(cluster, remaining, ch, k);
          if !ok { return; }
          SliceSplit(all, 0, copied, size);
          return true, data + tail;
        }
        var full := remaining / clusterBytes;
        WholeUnits(remaining, clusterBytes, 1);
        var run, bytes;
        ok, run, bytes := ReadRun(cluster, full, ch, k);
        if !ok { return; }
        RunAdvances(all, data, bytes, clusterBytes, k, run.count, remaining);
        copied := copied + run.count * clusterBytes;
        data := data + bytes;
        if copied >= size { return true, data; }
        var next;
        ok, next := AfterRun(run, full, ch, k);
        if !ok { return; }
        if !IsDataCluster(next) { return false, data; }
        cluster, k := next, k + run.count;
      }
      ok := true;
    }

    // ------------------------------------------------- reading by descriptor

    /** The descriptor's file is the chain ch, and its cached (index, cluster) pair lies on it. */
    ghost predicate Describes(file: FileDescriptor, ch: seq<nat>)
      requires Valid()
      reads this, file
    {
      file.size > 0 ==>
        && OnDisk(ch) && ch[0] == file.first && file.size <= |Bytes(ch)|
        && (file.cacheValid ==> file.cacheIndex < |ch| && ch[file.cacheIndex] == file.cacheValue)
    }

    method ClusterForFileOffset(file: FileDescriptor, index: nat, ghost ch: seq<nat>) returns (ok: bool, cluster: nat)
      requires Valid() && (file.valid ==> Describes(file, ch))
      modifies this`cacheValid, this`cacheFirst, this`cacheCount, this`cache, file
      ensures Valid() && (file.valid ==> Describes(file, ch))
      ensures ok ==> file.valid && file.size > 0 && index < |ch| && cluster == ch[index]
      ensures reliable ==> ok == (file.valid && file.size > 0 && index < |ch|)
    {
      hide FatOf, DataOf, Coherent, InfoMatches, Concat, Chain;
      if !file.valid || file.size == 0 { return false, 0; }
      var current: nat := 0;
      cluster := file.first;
      if file.cacheValid && file.cacheIndex <= index {
        current, cluster := file.cacheIndex, file.cacheValue;
      }
      while current < index
        invariant Valid() && Describes(file, ch) && current <= index && current < |ch| && cluster == ch[current]
      {
        var next;
        StretchOne(ch, current, cluster);
        LinkAfter(Fat(), ch, g.clusters + 1, current, 1, cluster);
        ok, next := ReadFatValue(cluster);
        if !ok { return; }
        if !IsDataCluster(next) { return false, 0; }
        cluster, current := next, current + 1;
      }
      file.cacheValid, file.cacheIndex, file.cacheValue := true, current, cluster;
      ok := true;
    }

    /** The place left in the descriptor after a run lies on the chain. */
    lemma RunPlaceOnChain(run: Run, maxCount: nat, ch: seq<nat>, k: nat)
      requires RunOf(run, maxCount, ch, k)
      ensures IsDataCluster(run.next) ==> k + run.count < |ch| && run.next == ch[k + run.count]
      ensures run.last == ch[k + run.count - 1]
    {
      assert ch[k + run.count - 1] == run.first + (run.count - 1);
    }

    /** The fast path: a run of whole clusters in one request. */
    method ReadWholeClusters(file: FileDescriptor, index: nat, cluster: nat, left: nat, ghost ch: seq<nat>)
      returns (ok: bool, bytes: seq<Byte>)
      requires Valid() && file.size > 0 && Describes(file, ch) && index < |ch| && cluster == ch[index]
               && g.spc * 512 <= left
      modifies this`cacheValid, this`cacheFirst, this`cacheCount, this`cache, file
      ensures Valid() && Describes(file, ch) && (reliable ==> ok)
      ensures ok ==> 0 < |bytes| <= left && At(index) + |bytes| <= |Bytes(ch)|
                     && bytes == Bytes(ch)[At(index)..At(index) + |bytes|]
    {
      hide FatOf, DataOf, Coherent, InfoMatches, Concat, Chain, RunOf;
      var clusterBytes := g.spc * 512;
      var full := left / clusterBytes;
      WholeUnits(left, clusterBytes, 1);
      var run;
      ok, run, bytes := ReadRun(cluster, full, ch, index);
      if !ok { return; }
      RunAdvances(Bytes(ch), Bytes(ch)[..index * clusterBytes], bytes, clusterBytes, index, run.count, left);
      MulMono(1, run.count, clusterBytes);
      RunPlaceOnChain(run, full, ch, index);
      file.cacheValid := true;
      if IsDataCluster(run.next) && |bytes| < left {
        file.cacheIndex, file.cacheValue := index + run.count, run.next;
      } else {
        file.cacheIndex, file.cacheValue := index + run.count - 1, run.last;
      }
    }

    /** One iteration of read_file_range: a run of whole clusters, or part of one cluster. */
    method ReadPiece(file: FileDescriptor, at: nat, left: nat, ghost ch: seq<nat>) returns (ok: bool, bytes: seq<Byte>)
      requires Valid() && file.valid && Describes(file, ch) && 0 < left && at + left <= file.size
      modifies this`cacheValid, this`cacheFirst, this`cacheCount, this`cache, file
      ensures Valid() && Describes(file, ch) && (reliable ==> ok)
      ensures ok ==> 0 < |bytes| <= left && bytes == Bytes(ch)[at..at + |bytes|]
    {
      hide FatOf, DataOf, Coherent, InfoMatches, Concat, Chain, RunOf;
      bytes := [];
      var clusterBytes := g.spc * 512;
      DivLaw(at, clusterBytes);
      var index: nat, off: nat := at / clusterBytes, at % clusterBytes;
      UnitIndex(at, clusterBytes, |ch|);
      var cluster;
      ok, cluster := ClusterForFileOffset(file, index, ch);
      if !ok { return; }
      if off == 0 && left >= clusterBytes {
        ok, bytes := ReadWholeClusters(file, index, cluster, left, ch);
        return;
      }
      var chunk := if clusterBytes - off > left then left else clusterBytes - off;
      ChainMember(Fat(), ch, g.clusters + 1, index);
      ok, bytes := ReadClusterBytes(cluster, off, chunk);
      if ok { InsideCluster(ch, index, off, chunk); }
    }

    /** ConcatInside for a chain of this volume. */
    lemma InsideCluster(ch: seq<nat>, k: nat, off: nat, size: nat)
      requires Valid() && OnDisk(ch) && k < |ch| && off + size <= g.spc * 512
      ensures 2 <= ch[k] <= g.clusters + 1 && At(k) + off + size <= |Bytes(ch)|
      ensures Bytes(ch)[At(k) + off..At(k) + off + size] == Data()[ch[k]][off..off + size]
    {
      hide FatOf, DataOf, Coherent, InfoMatches, Concat;
      ConcatInside(Data(), ch, g.spc * 512, k, off, size);
    }

    /** What a read at an offset should give: the slice of the file there, cut at its end. */
    ghost function Slice(file: FileDescriptor, ch: seq<nat>, offset: nat, size: nat): seq<Byte>
      requires Valid() && Describes(file, ch)
      reads this, file
    {
      if size == 0 || offset >= file.size then []
      else Bytes(ch)[offset..if offset + size < file.size then offset + size else file.size]
    }

    /** Whatever the descriptor's cache holds, a read returns exactly the slice asked for and
        leaves the cache on the chain for the next one. */
    method ReadFileRange(file: FileDescriptor, offset: nat, size: nat, ghost ch: seq<nat>)
      returns (ok: bool, out: seq<Byte>)
      requires Valid() && (file.valid ==> Describes(file, ch))
      modifies this`cacheValid, this`cacheFirst, this`cacheCount, this`cache, file
      ensures Valid() && (file.valid ==> Describes(file, ch))
      ensures ok ==> file.valid && out == Slice(file, ch, offset, size)
      ensures file.valid ==> out <= Slice(file, ch, offset, size)
      ensures reliable ==> ok == file.valid
    {
      hide FatOf, DataOf, Coherent, InfoMatches, Concat, Chain;
      out := [];
      if !file.valid { return false, []; }
      if size == 0 || offset >= file.size { return true, []; }
      var remaining := if file.size - offset > size then size else file.size - offset;
      while |out| < remaining
        invariant Valid() && Describes(file, ch) && |out| <= remaining && out == Bytes(ch)[offset..offset + |out|]
        decreases remaining - |out|
      {
        var bytes;
        ok, bytes := ReadPiece(file, offset + |out|, remaining - |out|, ch);
        if !ok { return; }
        SliceSplit(Bytes(ch), offset, offset + |out|, offset + |out| + |bytes|);
        out := out + bytes;
      }
      ok := true;
    }

    // -------------------------------------------------------- directory slots

    /** write_entry_bytes: these bytes of one sector of a directory cluster, and no others. */
    method WriteEntryBytes(c: nat, j: nat, offset: nat, bytes: seq<Byte>) returns (ok: bool)
      requires Valid() && 2 <= c <= g.clusters + 1 && j < g.spc
      modifies this`disk
      ensures Valid() && Fat() == old(Fat()) && (Mirrored(old(disk), g) ==> Mirrored(disk, g))
      ensures ok ==> 0 < |bytes| && offset + |bytes| <= 512
                     && Data() == old(Data())[c := PutBytes(old(Data()[c]), j * 512 + offset, bytes)]
      ensures !ok ==> Data() == old(Data())
      ensures reliable ==> ok == (0 < |bytes| && offset + |bytes| <= 512)
    {
      hide FatOf, DataOf, Mirrored, Coherent, InfoMatches;
      if |bytes| == 0 || offset + |bytes| > 512 { return false; }
      var sector;
      ok, sector := ReadPart(c, ClusterLba(g, c) + j, 0, 512);
      if !ok { return; }
      var changed: Sector := sector[..offset] + bytes + sector[offset + |bytes|..];
      PutInSector(Data()[c], j, sector, offset, bytes, changed);
      ok := WriteInCluster(c, j, changed);
    }

    /** What write_file_data stored, read_file_data gives back, whatever clusters were chosen;
        `size` is what the 32-bit size field of the entry records. */
    method WriteThenRead(data: seq<Byte>) returns (wrote: bool, ok: bool, back: seq<Byte>)
      requires Valid() && reliable
      modifies this`disk, this`cacheValid, this`cacheFirst, this`cacheCount, this`cache, this`freeCount, this`hint
      ensures Valid() && wrote == WriteData(old(View()), data).2
      ensures wrote ==> ok && back == data[..|data| % U32] && (back == data <==> |data| < U32)
    {
      hide FatOf, DataOf, Coherent, InfoMatches, Concat, WriteData, Mirrored, Chain, Written, RolledBack;
      ghost var v := View();
      WriteDataOutcome(v, data);
      ghost var ch := WriteData(v, data).1;
      var first;
      wrote, first := WriteFileData(data);
      ok, back := false, [];
      if wrote {
        var size := |data| % U32;
        if data != [] { WrittenIsReadable(v, View(), ch, data, size); }
        ok, back := ReadFileData(first, size, ch);
      }
    }
  }
}
