/**
 The on-disk layout: 512-byte sectors, FAT copies of 32-bit little-endian words whose low 28
 bits are the entry, and data clusters of `spc` sectors each.
 */
module FatDisk {
  import opened Bytes
  import opened FatModel

  const LOW28: nat := 0x1000_0000

  type Sector = s: seq<Byte> | |s| == 512 witness Zeros(512)

  /** Volume geometry, in sectors of a device of `sectors` sectors. */
  datatype Geometry = Geometry(start: nat, reserved: nat, fats: nat, spf: nat, firstData: nat, spc: nat,
                               clusters: nat, fsInfo: nat, sectors: nat)

  function FatLba(g: Geometry, copy: nat, i: nat): nat { g.start + g.reserved + copy * g.spf + i }

  function ClusterLba(g: Geometry, c: nat): nat
    requires c >= 2
  {
    g.start + g.firstData + (c - 2) * g.spc
  }

  /** Regions in order and inside the device, and a FAT that covers every cluster. */
  ghost predicate Good(g: Geometry) {
    && g.fats >= 1 && g.spf >= 1 && g.spc >= 1 && g.clusters >= 1
    && g.clusters + 2 <= g.spf * 128 && g.clusters + 1 < END_OF_CHAIN - 1
    && g.fsInfo < g.reserved && g.reserved + g.fats * g.spf <= g.firstData
    && g.start + g.firstData + g.clusters * g.spc <= g.sectors
  }

  /** A 64 MiB partition at sector 2048 with two FATs, as a formatter lays it out. */
  lemma GoodExample()
    ensures Good(Geometry(2048, 32, 2, 1016, 2064, 1, 129008, 1, 133120))
  {
  }

  // -------------------------------------------------------------- arithmetic

  lemma MulBound(a: nat, b: nat, i: nat, n: nat)
    requires a < b && i < n
    ensures a * n + i < b * n
  {
    assert b * n >= (a + 1) * n by { MulMono(a + 1, b, n); }
    assert (a + 1) * n == a * n + n;
  }

  lemma MulMono(a: nat, b: nat, n: nat)
    requires a <= b
    ensures a * n <= b * n
  {
    assert (b - a) * n >= 0;
    assert b * n == a * n + (b - a) * n;
  }

  lemma MulUnique(a: nat, b: nat, i: nat, j: nat, n: nat)
    requires i < n && j < n && a * n + i == b * n + j
    ensures a == b && i == j
  {
    if a < b { MulBound(a, b, i, n); }
    if b < a { MulBound(b, a, j, n); }
  }

  // -------------------------------------------------------------------- words

  function Word(s: Sector, off: nat): (w: nat)
    requires off + 4 <= 512
    ensures w < U32
  {
    var (a: nat, b: nat, c: nat, d: nat) := (s[off], s[off + 1], s[off + 2], s[off + 3]);
    a + 256 * (b + 256 * (c + 256 * d))
  }

  function PutWord(s: Sector, off: nat, w: nat): (r: Sector)
    requires off + 4 <= 512 && w < U32
    ensures Word(r, off) == w
    ensures forall k :: 0 <= k < 512 && !(off <= k < off + 4) ==> r[k] == s[k]
  {
    var x := w / 256;
    var y := x / 256;
    s[off := w % 256][off + 1 := x % 256][off + 2 := y % 256][off + 3 := y / 256]
  }

  /** Keep the reserved top four bits, replace the entry. */
  function PutEntry(s: Sector, i: nat, value: nat): (r: Sector)
    requires i < 128 && value < LOW28
  {
    PutWord(s, 4 * i, Word(s, 4 * i) / LOW28 * LOW28 + value)
  }

  function EntryIn(s: Sector, i: nat): nat
    requires i < 128
  {
    Word(s, 4 * i) % LOW28
  }

  lemma TopBitsStay(w: nat, value: nat)
    requires value < LOW28
    ensures (w / LOW28 * LOW28 + value) % LOW28 == value && (w / LOW28 * LOW28 + value) / LOW28 == w / LOW28
  {
  }

  lemma OtherWord(s: Sector, r: Sector, off: nat, other: nat)
    requires other + 4 <= 512 && (other + 4 <= off || off + 4 <= other)
    requires forall k :: 0 <= k < 512 && !(off <= k < off + 4) ==> r[k] == s[k]
    ensures Word(r, other) == Word(s, other)
  {
  }

  /** One entry changes, its top bits and every other word stay. */
  lemma PutEntryChangesOne(s: Sector, i: nat, value: nat, j: nat)
    requires i < 128 && value < LOW28 && j < 128
    ensures EntryIn(PutEntry(s, i, value), j) == if j == i then value else EntryIn(s, j)
    ensures Word(PutEntry(s, i, value), 4 * j) / LOW28 == Word(s, 4 * j) / LOW28
    ensures j != i ==> Word(PutEntry(s, i, value), 4 * j) == Word(s, 4 * j)
  {
    hide Word, PutWord;
    if j == i { TopBitsStay(Word(s, 4 * i), value); } else { OtherWord(s, PutEntry(s, i, value), 4 * i, 4 * j); }
  }

  /** A byte offset of 4 * c splits into sector and entry number. */
  lemma EntryPlace(c: nat)
    ensures c * 4 / 512 == c / 128 && c * 4 % 512 == 4 * (c % 128)
  {
  }

  // --------------------------------------------------------------- the views

  function Join(sectors: seq<Sector>): (b: seq<Byte>)
    ensures |b| == |sectors| * 512
  {
    if sectors == [] then [] else sectors[0] + Join(sectors[1..])
  }

  function FatAt(disk: seq<Sector>, g: Geometry, c: nat): nat
    requires c < g.spf * 128 && FatLba(g, 0, 0) + g.spf <= |disk|
  {
    EntryIn(disk[FatLba(g, 0, c / 128)], c % 128)
  }

  function FatOf(disk: seq<Sector>, g: Geometry): (f: seq<nat>)
    requires FatLba(g, 0, 0) + g.spf <= |disk|
    ensures |f| == g.spf * 128
  {
    seq(g.spf * 128, c requires 0 <= c < g.spf * 128 => FatAt(disk, g, c))
  }

  /** The entry of cluster c is entry c % 128 of sector c / 128. */
  lemma EntryOfFat(disk: seq<Sector>, g: Geometry, c: nat)
    requires FatLba(g, 0, 0) + g.spf <= |disk|
    ensures c < g.spf * 128 <==> c / 128 < g.spf
    ensures c / 128 < g.spf ==> FatOf(disk, g)[c] == EntryIn(disk[FatLba(g, 0, c / 128)], c % 128)
  {
    if c / 128 < g.spf { assert FatOf(disk, g)[c] == FatAt(disk, g, c); }
  }

  function BytesAt(disk: seq<Sector>, g: Geometry, c: nat): (b: seq<Byte>)
    requires 2 <= c && ClusterLba(g, c) + g.spc <= |disk|
    ensures |b| == g.spc * 512
  {
    Join(disk[ClusterLba(g, c)..ClusterLba(g, c) + g.spc])
  }

  lemma ClusterFits(g: Geometry, c: nat)
    requires Good(g) && 2 <= c < g.clusters + 2
    ensures g.start + g.firstData <= ClusterLba(g, c) && ClusterLba(g, c) + g.spc <= g.sectors
  {
    MulMono(c - 2 + 1, g.clusters, g.spc);
    assert (c - 2 + 1) * g.spc == (c - 2) * g.spc + g.spc;
  }

  function DataOf(disk: seq<Sector>, g: Geometry): (d: seq<seq<Byte>>)
    requires Good(g) && |disk| == g.sectors
    ensures |d| == g.clusters + 2
  {
    seq(g.clusters + 2, c requires 0 <= c < g.clusters + 2 =>
      if c < 2 then [] else
        ClusterFits(g, c);
        BytesAt(disk, g, c))
  }

  lemma FatFits(g: Geometry, copy: nat, i: nat)
    requires Good(g) && copy < g.fats && i < g.spf
    ensures g.start + g.reserved <= FatLba(g, copy, i) < g.start + g.firstData <= g.sectors
    ensures FatLba(g, 0, 0) + g.spf <= g.sectors
  {
    MulBound(copy, g.fats, i, g.spf);
    MulMono(1, g.fats, g.spf);
  }

  // ------------------------------------------------------------ sector writes

  /** A write to a sector of FAT copy 0 changes the entries of that sector only. */
  lemma WriteFatSector(disk: seq<Sector>, g: Geometry, c: nat, value: nat)
    requires Good(g) && |disk| == g.sectors && c < g.spf * 128 && value < LOW28
    ensures var i := FatLba(g, 0, c / 128);
            && i < |disk| && FatLba(g, 0, 0) + g.spf <= |disk|
            && FatOf(disk[i := PutEntry(disk[i], c % 128, value)], g) == FatOf(disk, g)[c := value]
  {
    FatFits(g, 0, c / 128);
    var i := FatLba(g, 0, c / 128);
    var after := disk[i := PutEntry(disk[i], c % 128, value)];
    forall d | 0 <= d < g.spf * 128 ensures FatAt(after, g, d) == if d == c then value else FatAt(disk, g, d) {
      if d / 128 == c / 128 {
        PutEntryChangesOne(disk[i], c % 128, value, d % 128);
      }
    }
  }

  /** Outside copy 0 the entries stay. */
  lemma WriteElsewhereKeepsFat(disk: seq<Sector>, g: Geometry, lba: nat, s: Sector)
    requires Good(g) && |disk| == g.sectors && lba < |disk|
    requires lba < FatLba(g, 0, 0) || FatLba(g, 0, 0) + g.spf <= lba
    ensures FatLba(g, 0, 0) + g.spf <= |disk| && FatOf(disk[lba := s], g) == FatOf(disk, g)
  {
    FatFits(g, 0, 0);
    forall d | 0 <= d < g.spf * 128 ensures FatAt(disk[lba := s], g, d) == FatAt(disk, g, d) { }
  }

  /** Outside the data region the clusters stay. */
  lemma WriteElsewhereKeepsData(disk: seq<Sector>, g: Geometry, lba: nat, s: Sector)
    requires Good(g) && |disk| == g.sectors && lba < g.start + g.firstData
    ensures lba < |disk| && DataOf(disk[lba := s], g) == DataOf(disk, g)
  {
    forall c | 2 <= c < g.clusters + 2 ensures DataOf(disk[lba := s], g)[c] == DataOf(disk, g)[c] {
      hide Good, Join, ClusterLba;
      ClusterElsewhere(disk, g, lba, s, c);
    }
  }

  lemma ClusterElsewhere(disk: seq<Sector>, g: Geometry, lba: nat, s: Sector, c: nat)
    requires Good(g) && |disk| == g.sectors && lba < g.start + g.firstData && lba < |disk| && 2 <= c < g.clusters + 2
    ensures ClusterLba(g, c) + g.spc <= |disk| && BytesAt(disk[lba := s], g, c) == BytesAt(disk, g, c)
  {
    hide Good, Join;
    ClusterFits(g, c);
    var a := ClusterLba(g, c);
    assert disk[lba := s][a..a + g.spc] == disk[a..a + g.spc];
  }

  lemma {:induction false} JoinUpdate(ss: seq<Sector>, j: nat, s: Sector)
    requires j < |ss|
    ensures Join(ss[j := s]) == Join(ss)[..j * 512] + s + Join(ss)[(j + 1) * 512..]
  {
    if j == 0 {
      assert ss[0 := s][1..] == ss[1..];
    } else {
      assert ss[j := s][1..] == ss[1..][j - 1 := s];
      JoinUpdate(ss[1..], j - 1, s);
    }
  }

  lemma OtherClusterStays(disk: seq<Sector>, g: Geometry, c: nat, j: nat, s: Sector, d: nat)
    requires Good(g) && |disk| == g.sectors && 2 <= c < g.clusters + 2 && j < g.spc && 2 <= d < g.clusters + 2 && d != c
    ensures ClusterLba(g, c) + j < |disk| && ClusterLba(g, d) + g.spc <= |disk|
    ensures BytesAt(disk[ClusterLba(g, c) + j := s], g, d) == BytesAt(disk, g, d)
  {
    hide Join;
    ClusterFits(g, c);
    ClusterFits(g, d);
    var lba, b := ClusterLba(g, c) + j, ClusterLba(g, d);
    if b <= lba < b + g.spc { MulUnique(d - 2, c - 2, lba - b, j, g.spc); }
    assert disk[lba := s][b..b + g.spc] == disk[b..b + g.spc];
  }

  lemma OwnClusterChanges(disk: seq<Sector>, g: Geometry, c: nat, j: nat, s: Sector)
    requires Good(g) && |disk| == g.sectors && 2 <= c < g.clusters + 2 && j < g.spc
    ensures ClusterLba(g, c) + g.spc <= |disk|
    ensures var was := BytesAt(disk, g, c);
            BytesAt(disk[ClusterLba(g, c) + j := s], g, c) == was[..j * 512] + s + was[(j + 1) * 512..]
  {
    hide Join;
    ClusterFits(g, c);
    var a := ClusterLba(g, c);
    assert disk[a + j := s][a..a + g.spc] == disk[a..a + g.spc][j := s];
    JoinUpdate(disk[a..a + g.spc], j, s);
  }

  /** A write to sector j of cluster c changes those 512 bytes of that cluster only. */
  lemma WriteClusterSector(disk: seq<Sector>, g: Geometry, c: nat, j: nat, s: Sector)
    requires Good(g) && |disk| == g.sectors && 2 <= c < g.clusters + 2 && j < g.spc
    ensures var lba := ClusterLba(g, c) + j;
            && lba < |disk| && (j + 1) * 512 <= |DataOf(disk, g)[c]|
            && var was := DataOf(disk, g)[c];
               DataOf(disk[lba := s], g) == DataOf(disk, g)[c := was[..j * 512] + s + was[(j + 1) * 512..]]
  {
    hide BytesAt, ClusterLba, Good;
    OwnClusterChanges(disk, g, c, j, s);
    var after := disk[ClusterLba(g, c) + j := s];
    forall d | 2 <= d < g.clusters + 2 && d != c ensures DataOf(after, g)[d] == DataOf(disk, g)[d] {
      OtherClusterStays(disk, g, c, j, s, d);
    }
  }

  // ---------------------------------------------------------- the FAT copies

  /** The disk after entry c of the first n FAT copies was set; each copy keeps its own top bits. */
  function PutCopies(disk: seq<Sector>, g: Geometry, c: nat, value: nat, n: nat): (r: seq<Sector>)
    requires Good(g) && |disk| == g.sectors && c < g.spf * 128 && value < LOW28 && n <= g.fats
    ensures |r| == |disk|
  {
    if n == 0 then disk
    else
      var before := PutCopies(disk, g, c, value, n - 1);
      FatFits(g, n - 1, c / 128);
      var lba := FatLba(g, n - 1, c / 128);
      before[lba := PutEntry(before[lba], c % 128, value)]
  }

  /** Exactly one sector of each of those copies changes, and in it exactly one entry. */
  lemma {:induction false} PutCopiesAt(disk: seq<Sector>, g: Geometry, c: nat, value: nat, n: nat, copy: nat, i: nat)
    requires Good(g) && |disk| == g.sectors && c < g.spf * 128 && value < LOW28 && n <= g.fats && copy < g.fats
             && i < g.spf
    ensures FatLba(g, copy, i) < |disk|
    ensures var lba := FatLba(g, copy, i);
            PutCopies(disk, g, c, value, n)[lba]
              == if copy < n && i == c / 128 then PutEntry(disk[lba], c % 128, value) else disk[lba]
  {
    hide PutEntry, Word;
    FatFits(g, copy, i);
    if n > 0 {
      PutCopiesAt(disk, g, c, value, n - 1, copy, i);
      FatFits(g, n - 1, c / 128);
      if FatLba(g, copy, i) == FatLba(g, n - 1, c / 128) { MulUnique(copy, n - 1, i, c / 128, g.spf); }
    }
  }

  /** No sector outside the FAT region changes. */
  lemma {:induction false} PutCopiesOutside(disk: seq<Sector>, g: Geometry, c: nat, value: nat, n: nat, lba: nat)
    requires Good(g) && |disk| == g.sectors && c < g.spf * 128 && value < LOW28 && n <= g.fats && lba < |disk|
    requires lba < g.start + g.reserved || g.start + g.firstData <= lba
    ensures PutCopies(disk, g, c, value, n)[lba] == disk[lba]
  {
    hide PutEntry, Word;
    if n > 0 {
      PutCopiesOutside(disk, g, c, value, n - 1, lba);
      FatFits(g, n - 1, c / 128);
    }
  }

  /** Rewriting the sector of one copy updates the entry when it is copy 0, and nothing else. */
  lemma PutCopyView(disk: seq<Sector>, g: Geometry, c: nat, value: nat, copy: nat)
    requires Good(g) && |disk| == g.sectors && c < g.spf * 128 && value < LOW28 && copy < g.fats
    ensures var lba := FatLba(g, copy, c / 128);
            && lba < |disk| && FatLba(g, 0, 0) + g.spf <= |disk|
            && var after := disk[lba := PutEntry(disk[lba], c % 128, value)];
               && FatOf(after, g) == (if copy == 0 then FatOf(disk, g)[c := value] else FatOf(disk, g))
               && DataOf(after, g) == DataOf(disk, g)
  {
    hide FatOf, DataOf, PutEntry;
    FatFits(g, copy, c / 128);
    var lba := FatLba(g, copy, c / 128);
    WriteElsewhereKeepsData(disk, g, lba, PutEntry(disk[lba], c % 128, value));
    if copy == 0 {
      WriteFatSector(disk, g, c, value);
    } else {
      MulMono(1, copy, g.spf);
      WriteElsewhereKeepsFat(disk, g, lba, PutEntry(disk[lba], c % 128, value));
    }
  }

  /** Seen through copy 0 and the data region, a write of at least one copy is one entry update. */
  lemma {:induction false} PutCopiesView(disk: seq<Sector>, g: Geometry, c: nat, value: nat, n: nat)
    requires Good(g) && |disk| == g.sectors && c < g.spf * 128 && value < LOW28 && n <= g.fats
    ensures FatLba(g, 0, 0) + g.spf <= |disk|
    ensures var after := PutCopies(disk, g, c, value, n);
            && FatOf(after, g) == (if n == 0 then FatOf(disk, g) else FatOf(disk, g)[c := value])
            && DataOf(after, g) == DataOf(disk, g)
  {
    hide FatOf, DataOf, PutEntry, Good;
    FirstFits(g);
    if n > 0 {
      PutCopiesView(disk, g, c, value, n - 1);
      PutCopyView(PutCopies(disk, g, c, value, n - 1), g, c, value, n - 1);
    }
  }

  lemma FirstFits(g: Geometry)
    requires Good(g)
    ensures FatLba(g, 0, 0) + g.spf <= g.sectors
  {
    FatFits(g, 0, g.spf - 1);
  }

  /** All copies hold the same entries. */
  ghost predicate Mirrored(disk: seq<Sector>, g: Geometry) {
    forall copy, i, e :: 0 <= copy < g.fats && 0 <= i < g.spf && 0 <= e < 128
                         && FatLba(g, copy, i) < |disk| && FatLba(g, 0, i) < |disk| ==>
      EntryIn(disk[FatLba(g, copy, i)], e) == EntryIn(disk[FatLba(g, 0, i)], e)
  }

  lemma PutCopiesMirrors(disk: seq<Sector>, g: Geometry, c: nat, value: nat)
    requires Good(g) && |disk| == g.sectors && c < g.spf * 128 && value < LOW28 && Mirrored(disk, g)
    ensures Mirrored(PutCopies(disk, g, c, value, g.fats), g)
  {
    var after := PutCopies(disk, g, c, value, g.fats);
    forall copy, i, e | 0 <= copy < g.fats && 0 <= i < g.spf && 0 <= e < 128
      ensures FatLba(g, copy, i) < |disk| && FatLba(g, 0, i) < |disk|
      ensures EntryIn(after[FatLba(g, copy, i)], e) == EntryIn(after[FatLba(g, 0, i)], e)
    {
      PutCopiesAt(disk, g, c, value, g.fats, copy, i);
      PutCopiesAt(disk, g, c, value, g.fats, 0, i);
      assert EntryIn(disk[FatLba(g, copy, i)], e) == EntryIn(disk[FatLba(g, 0, i)], e);
      PutEntryChangesOne(disk[FatLba(g, copy, i)], c % 128, value, e);
      PutEntryChangesOne(disk[FatLba(g, 0, i)], c % 128, value, e);
    }
  }

  /** Both disks agree on every FAT sector. */
  ghost predicate SameFats(a: seq<Sector>, b: seq<Sector>, g: Geometry) {
    |a| == |b| && forall lba :: g.start + g.reserved <= lba < g.start + g.firstData && lba < |a| ==> a[lba] == b[lba]
  }

  lemma SameFatsView(a: seq<Sector>, b: seq<Sector>, g: Geometry)
    requires Good(g) && |a| == g.sectors && SameFats(a, b, g)
    ensures FatLba(g, 0, 0) + g.spf <= |a| && FatOf(a, g) == FatOf(b, g) && (Mirrored(a, g) ==> Mirrored(b, g))
  {
    forall copy, i | 0 <= copy < g.fats && 0 <= i < g.spf
      ensures FatLba(g, copy, i) < |a| && a[FatLba(g, copy, i)] == b[FatLba(g, copy, i)]
    {
      FatFits(g, copy, i);
    }
    FatFits(g, 0, 0);
    forall c | 0 <= c < g.spf * 128 ensures FatAt(a, g, c) == FatAt(b, g, c) { assert FatLba(g, 0, c / 128) < |a|; }
  }

  // --------------------------------------------------------------- the cache

  /** What the FAT cache holds: `count` sectors of copy 0 from `first` on. */
  ghost predicate Coherent(disk: seq<Sector>, g: Geometry, first: nat, count: nat, cache: seq<Sector>) {
    && |cache| == 8 && count <= 8 && first + count <= g.spf
    && (forall i :: 0 <= i < count && FatLba(g, 0, first + i) < |disk| ==> cache[i] == disk[FatLba(g, 0, first + i)])
  }

  /** A write into some FAT copy leaves the cache coherent when a cached sector of copy 0 follows. */
  lemma CoherentAfterPut(disk: seq<Sector>, g: Geometry, first: nat, count: nat, cache: seq<Sector>, copy: nat, i: nat,
                         s: Sector)
    requires Good(g) && |disk| == g.sectors && Coherent(disk, g, first, count, cache) && copy < g.fats && i < g.spf
    ensures FatLba(g, copy, i) < |disk|
    ensures Coherent(disk[FatLba(g, copy, i) := s], g, first, count,
                     if copy == 0 && first <= i < first + count then cache[i - first := s] else cache)
  {
    FatFits(g, copy, i);
    if copy > 0 { MulMono(1, copy, g.spf); }
  }

  /** The sectors just read, padded to the cache's size, are what the cache should hold. */
  lemma CoherentFill(disk: seq<Sector>, g: Geometry, first: nat, count: nat, rest: seq<Sector>)
    requires Good(g) && |disk| == g.sectors && count + |rest| == 8 && first + count <= g.spf
    ensures FatLba(g, 0, first) + count <= |disk|
    ensures Coherent(disk, g, first, count, disk[FatLba(g, 0, first)..FatLba(g, 0, first) + count] + rest)
  {
    FatFits(g, 0, 0);
  }

  lemma CoherentHit(disk: seq<Sector>, g: Geometry, first: nat, count: nat, cache: seq<Sector>, i: nat)
    requires Good(g) && |disk| == g.sectors && Coherent(disk, g, first, count, cache) && first <= i < first + count
    ensures |cache| == 8 && i < g.spf && count <= 8 && FatLba(g, 0, i) < |disk|
            && cache[i - first] == disk[FatLba(g, 0, i)]
  {
    FatFits(g, 0, 0);
    assert FatLba(g, 0, first + (i - first)) == FatLba(g, 0, i);
  }

  lemma CoherentSize(disk: seq<Sector>, g: Geometry, first: nat, count: nat, cache: seq<Sector>)
    requires Coherent(disk, g, first, count, cache)
    ensures |cache| == 8 && count <= 8 && first + count <= g.spf
  {
  }

  lemma CoherentFrame(disk: seq<Sector>, after: seq<Sector>, g: Geometry, first: nat, count: nat, cache: seq<Sector>)
    requires Good(g) && |disk| == g.sectors && Coherent(disk, g, first, count, cache) && SameFats(disk, after, g)
    ensures Coherent(after, g, first, count, cache)
  {
    FatFits(g, 0, 0);
    MulMono(1, g.fats, g.spf);
  }

  // ------------------------------------------------------- the FSInfo sector

  /** FAT32 FSInfo: the three signatures, the free count and the next-free hint. */
  function FsInfoSector(freeCount: nat, hint: nat): (s: Sector)
    requires freeCount < U32 && hint < U32
    ensures Word(s, 488) == freeCount && Word(s, 492) == hint
  {
    var a := PutWord(PutWord(Zeros(512), 0, 0x41615252), 484, 0x61417272);
    var b := PutWord(a, 488, freeCount);
    var c := PutWord(b, 492, hint);
    PutWord(c, 508, 0xAA550000)
  }

  /** The FSInfo sector, if the volume has a valid one, holds these words. */
  ghost predicate InfoMatches(disk: seq<Sector>, g: Geometry, valid: bool, freeCount: nat, hint: nat) {
    valid && g.fsInfo != 0 && g.start + g.fsInfo < |disk| ==>
      Word(disk[g.start + g.fsInfo], 488) == freeCount && Word(disk[g.start + g.fsInfo], 492) == hint
  }

  /** A write behind the reserved sectors does not touch it. */
  lemma InfoStays(disk: seq<Sector>, g: Geometry, valid: bool, freeCount: nat, hint: nat, lba: nat, s: Sector)
    requires Good(g) && InfoMatches(disk, g, valid, freeCount, hint) && g.start + g.reserved <= lba < |disk|
    ensures InfoMatches(disk[lba := s], g, valid, freeCount, hint)
  {
  }
}
