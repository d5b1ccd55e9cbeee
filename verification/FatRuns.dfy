/**
 Reading several consecutive clusters at once gives the same bytes as reading them one by one
 along the chain, and every slice of a chain's bytes is the bytes of a slice of the chain.
 */
module FatRuns {
  import opened Bytes
  import opened FatModel
  import opened FatProofs
  import opened FatDisk

  lemma Middle<T>(all: seq<T>, x: seq<T>, y: seq<T>, z: seq<T>, a: nat, b: nat)
    requires all == x + (y + z) && a == |x| && b == |x| + |y|
    ensures b <= |all| && all[a..b] == y
  {
  }

  lemma Split<T>(s: seq<T>, i: nat, j: nat)
    requires i <= j <= |s|
    ensures s == s[..i] + (s[i..j] + s[j..])
  {
  }

  lemma SliceSplit<T>(s: seq<T>, a: nat, b: nat, c: nat)
    requires a <= b <= c <= |s|
    ensures s[a..c] == s[a..b] + s[b..c]
  {
  }

  lemma SliceOfSlice<T>(s: seq<T>, a: nat, b: nat, i: nat, j: nat)
    requires a <= b <= |s| && i <= j <= b - a
    ensures s[a..b][i..j] == s[a + i..a + j]
  {
    var x, y := s[a..b][i..j], s[a + i..a + j];
    assert |x| == |y|;
    forall k | 0 <= k < j - i ensures x[k] == y[k] {
      assert s[a..b][i + k] == s[a + (i + k)];
    }
  }

  lemma {:induction false} JoinAppend(a: seq<Sector>, b: seq<Sector>)
    ensures Join(a + b) == Join(a) + Join(b)
  {
    if a == [] {
      assert a + b == b;
    } else {
      assert (a + b)[1..] == a[1..] + b;
      JoinAppend(a[1..], b);
    }
  }

  /** Sectors i .. j of a sequence are bytes 512 i .. 512 j of its contents. */
  lemma JoinSlice(ss: seq<Sector>, i: nat, j: nat)
    requires i <= j <= |ss|
    ensures Join(ss)[i * 512..j * 512] == Join(ss[i..j])
  {
    hide Join;
    var a, b, c := ss[..i], ss[i..j], ss[j..];
    Split(ss, i, j);
    JoinAppend(a, b + c);
    JoinAppend(b, c);
    assert |Join(a)| == i * 512 && |Join(b)| == j * 512 - i * 512;
    Middle(Join(ss), Join(a), Join(b), Join(c), i * 512, j * 512);
  }

  lemma {:induction false} ConcatSplit(data: seq<seq<Byte>>, a: seq<nat>, b: seq<nat>)
    requires (forall i :: 0 <= i < |a| ==> a[i] < |data|) && forall i :: 0 <= i < |b| ==> b[i] < |data|
    ensures Concat(data, a + b) == Concat(data, a) + Concat(data, b)
  {
    if a == [] {
      assert a + b == b;
    } else {
      assert (a + b)[1..] == a[1..] + b && (a + b)[0] == a[0];
      ConcatSplit(data, a[1..], b);
    }
  }

  /** All clusters of a sequence exist and have n bytes. */
  ghost predicate Whole(data: seq<seq<Byte>>, ch: seq<nat>, n: nat) {
    forall i :: 0 <= i < |ch| ==> ch[i] < |data| && |data[ch[i]]| == n
  }

  /** Clusters i .. j of a chain are bytes n i .. n j of its contents. */
  lemma ConcatSlice(data: seq<seq<Byte>>, ch: seq<nat>, n: nat, i: nat, j: nat)
    requires i <= j <= |ch| && Whole(data, ch, n)
    ensures i * n <= j * n <= |Concat(data, ch)| == |ch| * n
    ensures Concat(data, ch)[i * n..j * n] == Concat(data, ch[i..j])
  {
    hide Concat;
    var a, b, c := ch[..i], ch[i..j], ch[j..];
    Split(ch, i, j);
    ConcatSplit(data, a, b + c);
    ConcatSplit(data, b, c);
    ConcatLength(data, a, n);
    ConcatLength(data, b, n);
    ConcatLength(data, c, n);
    ConcatLength(data, ch, n);
    MulMono(i, j, n);
    MulMono(j, |ch|, n);
    assert (j - i) * n == j * n - i * n;
    Middle(Concat(data, ch), Concat(data, a), Concat(data, b), Concat(data, c), i * n, j * n);
  }

  /** Bytes inside one cluster of a chain. */
  lemma ConcatInside(data: seq<seq<Byte>>, ch: seq<nat>, n: nat, k: nat, off: nat, size: nat)
    requires k < |ch| && Whole(data, ch, n) && off + size <= n
    ensures k * n + off + size <= |Concat(data, ch)| && |data[ch[k]]| == n
    ensures Concat(data, ch)[k * n + off..k * n + off + size] == data[ch[k]][off..off + size]
  {
    ConcatCluster(data, ch, n, k);
    hide Concat;
    SliceOfSlice(Concat(data, ch), k * n, k * n + n, off, off + size);
  }

  lemma ConcatCluster(data: seq<seq<Byte>>, ch: seq<nat>, n: nat, k: nat)
    requires k < |ch| && Whole(data, ch, n)
    ensures k * n + n <= |Concat(data, ch)| && Concat(data, ch)[k * n..k * n + n] == data[ch[k]]
  {
    hide Concat;
    ConcatSlice(data, ch, n, k, k + 1);
    assert (k + 1) * n == k * n + n;
    assert ch[k..k + 1] == [ch[k]];
    ConcatOne(data, ch[k]);
  }

  lemma ConcatOne(data: seq<seq<Byte>>, c: nat)
    requires c < |data|
    ensures Concat(data, [c]) == data[c]
  {
    assert Concat(data, [c][1..]) == [];
  }

  /** The bytes at k consecutive clusters from c on. */
  ghost predicate Consecutive(ch: seq<nat>) {
    forall i :: 0 <= i < |ch| ==> ch[i] == ch[0] + i
  }

  /** Clusters first, first + 1, ... from place k of a chain on. */
  ghost predicate Stretch(ch: seq<nat>, k: nat, count: nat, first: nat) {
    k + count <= |ch| && forall j :: k <= j < k + count ==> ch[j] == first + (j - k)
  }

  lemma StretchOne(ch: seq<nat>, k: nat, first: nat)
    requires k < |ch| && ch[k] == first
    ensures Stretch(ch, k, 1, first)
  {
  }

  /** The link after a stretch either lengthens it by one, or leads elsewhere, or ends the chain. */
  lemma LinkAfter(fat: seq<nat>, ch: seq<nat>, max: nat, k: nat, count: nat, first: nat)
    requires Chain(fat, ch, max) && max < END_OF_CHAIN - 1 && count > 0 && Stretch(ch, k, count, first)
    ensures var last := first + count - 1; last == ch[k + count - 1] && last < |fat| && last <= max
    ensures var link := fat[first + count - 1];
            && (if k + count < |ch| then link == ch[k + count] && 2 <= link <= max else link >= END_OF_CHAIN)
            && (link == first + count ==> Stretch(ch, k, count + 1, first))
  {
    assert ch[k + count - 1] == first + count - 1;
  }

  lemma ChainNonEmpty(fat: seq<nat>, ch: seq<nat>, max: nat)
    requires Chain(fat, ch, max)
    ensures |ch| > 0
  {
  }

  lemma ChainMember(fat: seq<nat>, ch: seq<nat>, max: nat, k: nat)
    requires Chain(fat, ch, max) && k < |ch|
    ensures 2 <= ch[k] <= max
  {
  }

  lemma StretchIsRun(ch: seq<nat>, k: nat, count: nat, first: nat, max: nat)
    requires Stretch(ch, k, count, first) && count > 0 && forall i :: 0 <= i < |ch| ==> 2 <= ch[i] <= max
    ensures var run := ch[k..k + count]; Consecutive(run) && run[0] == first && 2 <= first && first + count <= max + 1
  {
    assert ch[k + count - 1] == first + count - 1;
    assert ch[k] == first;
  }

  /** One multi-sector read of a run equals the clusters read along the chain. */
  lemma {:induction false} RunRead(disk: seq<Sector>, g: Geometry, ch: seq<nat>)
    requires Good(g) && |disk| == g.sectors && |ch| > 0 && Consecutive(ch) && 2 <= ch[0]
             && ch[0] + |ch| <= g.clusters + 2
    ensures ClusterLba(g, ch[0]) + |ch| * g.spc <= |disk|
    ensures Join(disk[ClusterLba(g, ch[0])..ClusterLba(g, ch[0]) + |ch| * g.spc]) == Concat(DataOf(disk, g), ch)
    decreases |ch|
  {
    hide Join, Concat, DataOf, ClusterLba, Good;
    var a, n := ClusterLba(g, ch[0]), |ch|;
    var last, init := ch[n - 1], ch[..n - 1];
    assert ch == init + [last];
    RunPlace(g, ch[0], n);
    ConcatAppend(DataOf(disk, g), init, last);
    RunOne(disk, g, last);
    var b := a + (n - 1) * g.spc;
    if n > 1 {
      RunRead(disk, g, init);
      RunAppend(disk, a, b, b + g.spc);
    } else {
      assert init == [];
    }
  }

  lemma RunPlace(g: Geometry, c: nat, n: nat)
    requires Good(g) && n > 0 && 2 <= c && c + n <= g.clusters + 2
    ensures ClusterLba(g, c + n - 1) == ClusterLba(g, c) + (n - 1) * g.spc
    ensures n * g.spc == (n - 1) * g.spc + g.spc && ClusterLba(g, c) + n * g.spc <= g.sectors
  {
    ClusterFits(g, c + n - 1);
    assert (c + n - 1 - 2) * g.spc == (c - 2) * g.spc + (n - 1) * g.spc;
  }

  lemma RunOne(disk: seq<Sector>, g: Geometry, c: nat)
    requires Good(g) && |disk| == g.sectors && 2 <= c < g.clusters + 2
    ensures ClusterLba(g, c) + g.spc <= |disk| && Concat(DataOf(disk, g), []) == []
    ensures DataOf(disk, g)[c] == Join(disk[ClusterLba(g, c)..ClusterLba(g, c) + g.spc])
  {
    ClusterFits(g, c);
    assert DataOf(disk, g)[c] == BytesAt(disk, g, c);
  }

  lemma RunAppend(disk: seq<Sector>, a: nat, b: nat, c: nat)
    requires a <= b <= c <= |disk|
    ensures Join(disk[a..c]) == Join(disk[a..b]) + Join(disk[b..c])
  {
    SliceSplit(disk, a, b, c);
    JoinAppend(disk[a..b], disk[b..c]);
  }

  /** Sectors j .. j + k of a cluster, as bytes of the cluster. */
  lemma SectorRun(disk: seq<Sector>, base: nat, n: nat, j: nat, k: nat)
    requires base + n <= |disk| && j + k <= n
    ensures Join(disk[base..base + n])[j * 512..j * 512 + k * 512] == Join(disk[base + j..base + j + k])
  {
    hide Join;
    JoinSlice(disk[base..base + n], j, j + k);
    SliceOfSlice(disk, base, base + n, j, j + k);
  }

  /** Part of one sector of a cluster, as bytes of the cluster. */
  lemma SectorBytes(disk: seq<Sector>, base: nat, n: nat, j: nat, skip: nat, k: nat)
    requires base + n <= |disk| && j < n && skip + k <= 512
    ensures Join(disk[base..base + n])[j * 512 + skip..j * 512 + skip + k] == disk[base + j][skip..skip + k]
  {
    SectorRun(disk, base, n, j, 1);
    assert disk[base + j..base + j + 1] == [disk[base + j]];
    JoinOne(disk[base + j]);
    hide Join;
    SliceOfSlice(Join(disk[base..base + n]), j * 512, j * 512 + 512, skip, skip + k);
  }

  lemma JoinOne(s: Sector)
    ensures Join([s]) == s
  {
    assert Join([s][1..]) == [];
  }

  // -------------------------------------------------------- cluster contents

  /** Sector j of a cluster's bytes replaced. */
  function PutAt(b: seq<Byte>, j: nat, s: Sector): (r: seq<Byte>)
    requires (j + 1) * 512 <= |b|
    ensures |r| == |b| && r[..(j + 1) * 512] == b[..j * 512] + s && r[(j + 1) * 512..] == b[(j + 1) * 512..]
  {
    b[..j * 512] + s + b[(j + 1) * 512..]
  }

  /** Some bytes replaced in place. */
  function PutBytes(b: seq<Byte>, at: nat, x: seq<Byte>): (r: seq<Byte>)
    requires at + |x| <= |b|
    ensures |r| == |b|
  {
    b[..at] + x + b[at + |x|..]
  }

  lemma PutInSector(b: seq<Byte>, j: nat, sector: seq<Byte>, offset: nat, x: seq<Byte>, s: Sector)
    requires (j + 1) * 512 <= |b| && sector == b[j * 512..j * 512 + 512] && offset + |x| <= 512
    requires s == sector[..offset] + x + sector[offset + |x|..]
    ensures PutAt(b, j, s) == PutBytes(b, j * 512 + offset, x)
  {
    PutInside(b, j * 512, sector, offset, x);
  }

  lemma PutInside(b: seq<Byte>, base: nat, sector: seq<Byte>, offset: nat, x: seq<Byte>)
    requires base + 512 <= |b| && sector == b[base..base + 512] && offset + |x| <= 512
    ensures b[..base] + (sector[..offset] + x + sector[offset + |x|..]) + b[base + 512..]
            == PutBytes(b, base + offset, x)
  {
    assert b[..base] + sector[..offset] == b[..base + offset];
    assert sector[offset + |x|..] + b[base + 512..] == b[base + offset + |x|..];
  }

  /** One more sector of the wanted contents is in place. */
  lemma PrefixGrows(was: seq<Byte>, now: seq<Byte>, want: seq<Byte>, j: nat, s: Sector)
    requires (j + 1) * 512 <= |was| == |want| && now == PutAt(was, j, s)
    requires was[..j * 512] == want[..j * 512] && want[j * 512..(j + 1) * 512] == s
    ensures now[..(j + 1) * 512] == want[..(j + 1) * 512]
  {
    SliceSplit(want, 0, j * 512, (j + 1) * 512);
  }

  /** Sector j of what a write puts into a cluster: the next bytes, zero-filled. */
  lemma ChunkSector(rest: seq<Byte>, n: nat, j: nat)
    requires (j + 1) * 512 <= n
    ensures Chunk(rest, n)[j * 512..(j + 1) * 512]
              == Chunk(if j * 512 < |rest| then rest[j * 512..] else [], 512)
  {
  }

  /** The sector assembled from the next bytes is sector j of the cluster's contents. */
  lemma NextSector(data: seq<Byte>, from: nat, at: nat, n: nat, j: nat, s: Sector)
    requires from <= |data| && (j + 1) * 512 <= n && at == if |data| - from < j * 512 then |data| else from + j * 512
    requires var chunk := if |data| - at > 512 then 512 else |data| - at; s == data[at..at + chunk] + Zeros(512 - chunk)
    ensures Chunk(data[from..], n)[j * 512..(j + 1) * 512] == s
  {
    ChunkSector(data[from..], n, j);
    if |data| - from > j * 512 {
      assert data[from..][j * 512..] == data[at..];
      if |data| - at >= 512 {
        assert data[at..][..512] == data[at..at + 512];
      }
    }
  }

  /** One iteration of the write loop, seen from the bytes written so far. */
  lemma WriteLoopStep(v: Vol, u: Vol, ch: seq<nat>, c: nat, data: seq<Byte>, from: nat, to: nat)
    requires 2 <= v.max < |v.fat| && |v.data| == v.max + 1 && v.clusterBytes > 0 && from < |data|
    requires forall i :: 0 <= i < |ch| ==> ch[i] <= v.max
    requires Allocate(v).1 == c != 0 && c <= v.max && u == Extend(Allocate(v).0, ch, c, data[from..])
    requires to == if |data| - from < v.clusterBytes then |data| else from + v.clusterBytes
    ensures |u.data| == u.max + 1 && u.max == v.max && u.max < |u.fat| && u.clusterBytes == v.clusterBytes
    ensures WriteLoop(v, ch, data[from..]) == WriteLoop(u, ch + [c], data[to..])
  {
    AllocateRange(v);
    var rest := data[from..];
    assert rest[if |rest| < v.clusterBytes then |rest| else v.clusterBytes..] == data[to..];
    hide Allocate, FreeChain, Chunk;
    WriteLoopUnfold(v, u, ch, c, rest);
  }

  lemma WriteLoopUnfold(v: Vol, u: Vol, ch: seq<nat>, c: nat, rest: seq<Byte>)
    requires 2 <= v.max < |v.fat| && |v.data| == v.max + 1 && v.clusterBytes > 0 && rest != []
    requires forall i :: 0 <= i < |ch| ==> ch[i] <= v.max
    requires Allocate(v).1 == c != 0 && c <= v.max && u == Extend(Allocate(v).0, ch, c, rest)
    ensures |u.data| == u.max + 1 && u.max == v.max && u.max < |u.fat| && u.clusterBytes == v.clusterBytes
    ensures WriteLoop(v, ch, rest)
              == WriteLoop(u, ch + [c], rest[if |rest| < v.clusterBytes then |rest| else v.clusterBytes..])
  {
    hide Allocate, FreeChain, Chunk;
    AllocateRange(v);
  }

  lemma WrittenIsReadable(v: Vol, w: Vol, ch: seq<nat>, bytes: seq<Byte>, size: nat)
    requires Written(v, w, ch, bytes) && bytes != [] && size <= |bytes|
    ensures ch != [] && Chain(w.fat, ch, w.max) && IsDataCluster(ch[0]) && ch[0] <= w.max
    ensures (forall i :: 0 <= i < |ch| ==> ch[i] < |w.data|) && size <= |Concat(w.data, ch)|
    ensures Concat(w.data, ch)[..size] == bytes[..size]
  {
    SliceOfSlice(Concat(w.data, ch), 0, |bytes|, 0, size);
  }

  // -------------------------------------------------------------- arithmetic

  lemma DivLaw(x: nat, n: nat)
    requires n > 0
    ensures x == (x / n) * n + x % n && 0 <= x % n < n && 0 <= x / n
  {
  }

  /** At least m whole units fit into what x / m ... counts. */
  lemma WholeUnits(x: nat, n: nat, k: nat)
    requires n > 0 && k <= x / n
    ensures k * n <= x
  {
    DivLaw(x, n);
    MulMono(k, x / n, n);
  }

  lemma UnitIndex(x: nat, n: nat, m: nat)
    requires n > 0 && x < m * n
    ensures x / n < m
  {
    DivLaw(x, n);
    if m <= x / n { MulMono(m, x / n, n); }
  }

  /** A run appended to the bytes before it. */
  lemma RunAdvances(all: seq<Byte>, data: seq<Byte>, bytes: seq<Byte>, n: nat, k: nat, count: nat, remaining: nat)
    requires n > 0 && count <= remaining / n && k * n <= (k + count) * n <= |all|
    requires data == all[..k * n] && bytes == all[k * n..(k + count) * n]
    ensures k * n + count * n == (k + count) * n && count * n <= remaining
    ensures data + bytes == all[..(k + count) * n]
  {
    WholeUnits(remaining, n, count);
    SliceSplit(all, 0, k * n, (k + count) * n);
  }
}
