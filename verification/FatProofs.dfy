/** Allocation, freeing and writing of cluster chains. */
module FatProofs {
  import opened Bytes
  import opened FatModel

  // ------------------------------------------------------------------ chains

  lemma ChainFrame(fat: seq<nat>, fat': seq<nat>, ch: seq<nat>, max: nat)
    requires Chain(fat, ch, max) && |fat'| == |fat|
    requires forall i :: 0 <= i < |ch| ==> fat'[ch[i]] == fat[ch[i]]
    ensures Chain(fat', ch, max)
  {
  }

  /** A chain is determined by the table and its first cluster. */
  lemma {:induction false} ChainUnique(fat: seq<nat>, a: seq<nat>, b: seq<nat>, max: nat)
    requires Chain(fat, a, max) && Chain(fat, b, max) && a[0] == b[0] && max < END_OF_CHAIN
    ensures a == b
    decreases |a|
  {
    if |a| == 1 || |b| == 1 {
      ChainOfOne(fat, a, max);
      ChainOfOne(fat, b, max);
      assert a == [a[0]] && b == [b[0]];
    } else {
      ChainTail(fat, a, max);
      ChainTail(fat, b, max);
      ChainUnique(fat, a[1..], b[1..], max);
      assert a == [a[0]] + a[1..] && b == [b[0]] + b[1..];
    }
  }

  lemma ChainOfOne(fat: seq<nat>, ch: seq<nat>, max: nat)
    requires Chain(fat, ch, max) && max < END_OF_CHAIN
    ensures |ch| == 1 <==> fat[ch[0]] >= END_OF_CHAIN
  {
    assert |ch| > 1 ==> fat[ch[0]] == ch[1];
  }

  lemma ChainNonZero(fat: seq<nat>, ch: seq<nat>, max: nat)
    requires Chain(fat, ch, max)
    ensures forall c :: c in ch ==> c < |fat| && fat[c] != 0
  {
    forall i | 0 <= i < |ch| ensures fat[ch[i]] != 0 {
      if i < |ch| - 1 { assert fat[ch[i]] == ch[i + 1]; }
    }
  }

  lemma ChainTail(fat: seq<nat>, ch: seq<nat>, max: nat)
    requires Chain(fat, ch, max) && |ch| > 1
    ensures Chain(fat, ch[1..], max) && ch[0] !in ch[1..]
  {
    var t := ch[1..];
    assert forall i :: 0 <= i < |t| ==> t[i] == ch[i + 1];
  }

  /** Freeing a chain zeroes exactly its entries. */
  lemma {:induction false} FreeWalkOfChain(fat: seq<nat>, ch: seq<nat>, max: nat)
    requires Chain(fat, ch, max) && max < END_OF_CHAIN
    ensures FreeWalk(fat, ch[0]) == (ZeroAll(fat, ch), |ch|, true)
    decreases |ch|
  {
    var cut := fat[ch[0] := 0];
    if |ch| == 1 {
      assert cut == ZeroAll(fat, ch);
    } else {
      ChainTail(fat, ch, max);
      ChainFrame(fat, cut, ch[1..], max);
      FreeWalkOfChain(cut, ch[1..], max);
      assert forall c :: c in ch <==> c == ch[0] || c in ch[1..];
      assert ZeroAll(cut, ch[1..]) == ZeroAll(fat, ch);
    }
  }

  /** On any table at all: nothing but zeroing happens, and at least the first entry is zeroed. */
  lemma {:induction false} FreeWalkOnlyZeroes(fat: seq<nat>, cur: nat)
    ensures var (r, freed, ok) := FreeWalk(fat, cur);
            && |r| == |fat| && (forall c :: 0 <= c < |fat| ==> r[c] == fat[c] || r[c] == 0)
            && (cur < |fat| ==> r[cur] == 0 && freed >= 1)
            && NonZero(r) + freed >= NonZero(fat) && freed <= NonZero(fat) + 1
    decreases NonZero(fat)
  {
    if cur < |fat| {
      NonZeroUpdate(fat, cur, 0);
      if IsDataCluster(fat[cur]) { FreeWalkOnlyZeroes(fat[cur := 0], fat[cur]); }
    }
  }

  // ------------------------------------------------------------------ concat

  /** A found cluster is a data cluster and was free; lengths and sizes stay. */
  lemma AllocateRange(v: Vol)
    requires 2 <= v.max < |v.fat|
    ensures var (w, c) := Allocate(v);
            && (c != 0 ==> 2 <= c <= v.max && v.fat[c] == 0) && (c == 0 ==> w == v)
            && |w.fat| == |v.fat| && w.data == v.data && w.max == v.max && w.clusterBytes == v.clusterBytes
  {
  }

  lemma {:induction false} ConcatAppend(data: seq<seq<Byte>>, ch: seq<nat>, c: nat)
    requires (forall i :: 0 <= i < |ch| ==> ch[i] < |data|) && c < |data|
    ensures Concat(data, ch + [c]) == Concat(data, ch) + data[c]
  {
    if ch == [] {
      assert ch + [c] == [c] && [c][1..] == [];
      assert Concat(data, [c]) == data[c] + Concat(data, []);
    } else {
      assert (ch + [c])[0] == ch[0] && (ch + [c])[1..] == ch[1..] + [c];
      ConcatAppend(data, ch[1..], c);
      assert data[ch[0]] + (Concat(data, ch[1..]) + data[c]) == (data[ch[0]] + Concat(data, ch[1..])) + data[c];
    }
  }

  lemma {:induction false} ConcatFrame(data: seq<seq<Byte>>, data': seq<seq<Byte>>, ch: seq<nat>)
    requires |data'| == |data| && forall i :: 0 <= i < |ch| ==> ch[i] < |data| && data'[ch[i]] == data[ch[i]]
    ensures Concat(data', ch) == Concat(data, ch)
  {
    if ch != [] { ConcatFrame(data, data', ch[1..]); }
  }

  lemma {:induction false} ConcatLength(data: seq<seq<Byte>>, ch: seq<nat>, n: nat)
    requires forall i :: 0 <= i < |ch| ==> ch[i] < |data| && |data[ch[i]]| == n
    ensures |Concat(data, ch)| == |ch| * n
  {
    if ch != [] {
      ConcatLength(data, ch[1..], n);
      assert |ch| * n == n + (|ch| - 1) * n;
    }
  }

  // ------------------------------------------------------------------- write

  /** v differs from v0 only on the clusters of ch, which were free and now hold `done`. */
  ghost predicate Building(v0: Vol, v: Vol, ch: seq<nat>, done: seq<Byte>) {
    && Shape(v0) && Shape(v) && v.max == v0.max && v.clusterBytes == v0.clusterBytes && |v.fat| == |v0.fat|
    && (ch != [] ==> Chain(v.fat, ch, v.max))
    && (forall i :: 0 <= i < |ch| ==> v0.fat[ch[i]] == 0)
    && (forall c :: 0 <= c < |v.fat| && c !in ch ==> v.fat[c] == v0.fat[c])
    && (forall c :: 2 <= c <= v.max && c !in ch ==> v.data[c] == v0.data[c])
    && (forall i :: 0 <= i < |ch| ==> ch[i] < |v.data|)
    && Concat(v.data, ch) == done
  }

  /** Appending a cluster taken from the free ones extends the chain and its contents. */
  lemma ExtendBuilds(v0: Vol, v: Vol, ch: seq<nat>, done: seq<Byte>, rest: seq<Byte>)
    requires Building(v0, v, ch, done) && Allocate(v).1 != 0
    ensures var (w, c) := Allocate(v);
            c <= v.max && c !in ch
            && Building(v0, Extend(w, ch, c, rest), ch + [c], done + Chunk(rest, v.clusterBytes))
  {
    hide FindFree, Concat, Chunk;
    var (w, c) := Allocate(v);
    var u, ch' := Extend(w, ch, c, rest), ch + [c];
    if ch != [] { ChainNonZero(v.fat, ch, v.max); }
    ExtendChain(v.fat, w.fat, u.fat, ch, c, v.max);
    ConcatAppend(u.data, ch, c);
    ConcatFrame(v.data, u.data, ch);
  }

  lemma ExtendChain(fat: seq<nat>, taken: seq<nat>, linked: seq<nat>, ch: seq<nat>, c: nat, max: nat)
    requires 2 <= c <= max < |fat| && c !in ch && taken == fat[c := END_OF_CHAIN]
    requires ch != [] ==> Chain(fat, ch, max)
    requires linked == if ch == [] then taken else taken[ch[|ch| - 1] := c]
    ensures Chain(linked, ch + [c], max)
    ensures forall x :: 0 <= x < |fat| && x !in ch + [c] ==> linked[x] == fat[x]
  {
    var ch' := ch + [c];
    forall i | 0 <= i < |ch'| - 1 ensures linked[ch'[i]] == ch'[i + 1] { }
  }

  /** The outcome of a write: the new chain with the bytes in it, or the old table. */
  ghost predicate Written(v0: Vol, w: Vol, ch: seq<nat>, bytes: seq<Byte>) {
    && (forall i :: 0 <= i < |ch| ==> ch[i] < |w.data|) && Building(v0, w, ch, Concat(w.data, ch))
    && |bytes| <= |Concat(w.data, ch)| < |bytes| + w.clusterBytes
    && Concat(w.data, ch)[..|bytes|] == bytes
  }

  ghost predicate RolledBack(v0: Vol, w: Vol) {
    && Shape(v0) && Shape(w) && w.max == v0.max && w.clusterBytes == v0.clusterBytes && w.fat == v0.fat
    && (forall c :: 2 <= c <= v0.max && v0.fat[c] != 0 ==> w.data[c] == v0.data[c])
  }

  lemma FailedBuildRollsBack(v0: Vol, v: Vol, ch: seq<nat>, done: seq<Byte>)
    requires Building(v0, v, ch, done)
    ensures RolledBack(v0, if ch == [] then v else FreeChain(v, ch[0]).0)
  {
    if ch != [] {
      FreeWalkOfChain(v.fat, ch, v.max);
      assert ZeroAll(v.fat, ch) == v0.fat;
    } else {
      assert v.fat == v0.fat;
    }
  }

  lemma {:induction false} WriteLoopBuilds(v0: Vol, v: Vol, ch: seq<nat>, done: seq<Byte>, rest: seq<Byte>,
                                           bytes: seq<Byte>)
    requires Building(v0, v, ch, done) && rest != [] && bytes == done + rest
    ensures var (w, res) := WriteLoop(v, ch, rest);
            if res == [] then RolledBack(v0, w) else Written(v0, w, res, bytes)
    decreases |rest|
  {
    hide Chain, FreeChain, FindFree, Distinct;
    var (w, c) := Allocate(v);
    if c == 0 {
      FailedBuildRollsBack(v0, v, ch, done);
    } else {
      ExtendBuilds(v0, v, ch, done, rest);
      var u, n := Extend(w, ch, c, rest), v.clusterBytes;
      if |rest| <= n {
        assert WriteLoop(u, ch + [c], rest[|rest|..]) == (u, ch + [c]);
        assert done + Chunk(rest, n) == Concat(u.data, ch + [c]);
        assert (done + Chunk(rest, n))[..|bytes|] == bytes;
      } else {
        assert done + rest[..n] + rest[n..] == bytes;
        WriteLoopBuilds(v0, u, ch + [c], done + rest[..n], rest[n..], bytes);
      }
    }
  }

  /**
   write_file_data: on success the returned chain is well formed, made of clusters that were
   free, holds exactly the bytes, and nothing outside it changed; on failure the table is back.
   */
  lemma WriteDataOutcome(v: Vol, bytes: seq<Byte>)
    requires Shape(v)
    ensures var (w, ch, ok) := WriteData(v, bytes);
            && (bytes == [] ==> ok && ch == [] && w == v)
            && (bytes != [] && ok ==> Written(v, w, ch, bytes))
            && (!ok ==> ch == [] && RolledBack(v, w))
  {
    if bytes != [] {
      assert [] + bytes == bytes;
      WriteLoopBuilds(v, v, [], [], bytes, bytes);
    }
  }

  // -------------------------------------------------------------- accounting

  lemma FreeClustersUpdate(v: Vol, fat: seq<nat>, c: nat, value: nat)
    requires 2 <= v.max < |v.fat| && c < |v.fat| && fat == v.fat[c := value]
    ensures FreeClusters(v.(fat := fat)) == FreeClusters(v)
            + (if 2 <= c <= v.max then (if v.fat[c] != 0 then 1 else 0) - (if value != 0 then 1 else 0) else 0)
  {
    var lo, hi := 2, v.max + 1;
    if lo <= c < hi {
      assert fat[lo..hi] == v.fat[lo..hi][c - lo := value];
      NonZeroUpdate(v.fat[lo..hi], c - lo, value);
    } else {
      assert fat[lo..hi] == v.fat[lo..hi];
    }
  }

  lemma {:induction false} FreeClustersZeroed(v: Vol, ch: seq<nat>)
    requires 2 <= v.max < |v.fat| && Distinct(ch) && forall i :: 0 <= i < |ch| ==>
               2 <= ch[i] <= v.max && v.fat[ch[i]] != 0
    ensures FreeClusters(v.(fat := ZeroAll(v.fat, ch))) == FreeClusters(v) + |ch|
    decreases |ch|
  {
    if ch == [] {
      assert ZeroAll(v.fat, ch) == v.fat;
    } else {
      var cut := v.fat[ch[0] := 0];
      FreeClustersUpdate(v, cut, ch[0], 0);
      var u, t := v.(fat := cut), ch[1..];
      assert forall i :: 0 <= i < |t| ==> t[i] == ch[i + 1];
      FreeClustersZeroed(u, t);
      assert forall c :: c in ch <==> c == ch[0] || c in t;
      assert ZeroAll(cut, t) == ZeroAll(v.fat, ch);
    }
  }

  lemma {:induction false} NonZeroAll(fat: seq<nat>)
    ensures NonZero(fat) == |fat| <==> forall i :: 0 <= i < |fat| ==> fat[i] != 0
  {
    if fat != [] {
      NonZeroAll(fat[1..]);
      assert forall i :: 0 < i < |fat| ==> fat[i] == fat[1..][i - 1];
    }
  }

  /** allocate_cluster fails exactly when no cluster is free, and takes one otherwise. */
  lemma AllocateCounts(v: Vol)
    requires Shape(v)
    ensures var (w, c) := Allocate(v);
            && (c == 0 <==> FreeClusters(v) == 0)
            && (c == 0 ==> w == v)
            && (c != 0 ==> 2 <= c <= v.max && v.fat[c] == 0 && FreeClusters(w) == FreeClusters(v) - 1)
  {
    var (w, c) := Allocate(v);
    var s := v.fat[2..v.max + 1];
    NonZeroAll(s);
    assert forall i :: 2 <= i <= v.max ==> v.fat[i] == s[i - 2];
    if c != 0 {
      FreeClustersUpdate(v, w.fat, c, END_OF_CHAIN);
      assert FreeClusters(w) == FreeClusters(v.(fat := w.fat));
    }
  }

  /** The FSInfo count is unknown or right. */
  ghost predicate CountOk(v: Vol) {
    2 <= v.max < |v.fat| && (v.freeCount == UNKNOWN || v.freeCount == FreeClusters(v))
  }

  lemma AllocateKeepsCount(v: Vol)
    requires Shape(v) && CountOk(v)
    ensures CountOk(Allocate(v).0)
  {
    AllocateCounts(v);
  }

  lemma FreeChainKeepsCount(v: Vol, ch: seq<nat>)
    requires Shape(v) && Chain(v.fat, ch, v.max)
    ensures FreeChain(v, ch[0]).1 && (CountOk(v) ==> CountOk(FreeChain(v, ch[0]).0))
    ensures var w := FreeChain(v, ch[0]).0;
            w.max == v.max && |w.fat| == |v.fat| && FreeClusters(w) == FreeClusters(v) + |ch|
  {
    hide FreeWalk, ZeroAll;
    FreeWalkOfChain(v.fat, ch, v.max);
    ChainNonZero(v.fat, ch, v.max);
    FreeClustersZeroed(v, ch);
    var w := FreeChain(v, ch[0]).0;
    assert FreeClusters(w) == FreeClusters(v.(fat := w.fat));
  }

  function ClustersFor(n: nat, clusterBytes: nat): nat
    requires clusterBytes > 0
    decreases n
  {
    if n == 0 then 0 else if n <= clusterBytes then 1 else 1 + ClustersFor(n - clusterBytes, clusterBytes)
  }

  lemma ExtendCounts(v: Vol, ch: seq<nat>, c: nat, bytes: seq<Byte>)
    requires Shape(v) && 2 <= c <= v.max && (ch != [] ==> 2 <= ch[|ch| - 1] <= v.max && v.fat[ch[|ch| - 1]] != 0)
    ensures FreeClusters(Extend(v, ch, c, bytes)) == FreeClusters(v)
  {
    var u := Extend(v, ch, c, bytes);
    if ch != [] { FreeClustersUpdate(v, u.fat, ch[|ch| - 1], c); }
    assert FreeClusters(u) == FreeClusters(v.(fat := u.fat));
  }

  /** A write succeeds exactly when enough clusters are free; either way a right count stays right. */
  lemma {:induction false} WriteLoopCounts(v0: Vol, v: Vol, ch: seq<nat>, done: seq<Byte>, rest: seq<Byte>)
    requires Building(v0, v, ch, done) && rest != []
    ensures var (w, res) := WriteLoop(v, ch, rest);
            (CountOk(v) ==> CountOk(w)) && (res != [] <==> ClustersFor(|rest|, v.clusterBytes) <= FreeClusters(v))
    decreases |rest|
  {
    var (w, c) := Allocate(v);
    AllocateCounts(v);
    if CountOk(v) { AllocateKeepsCount(v); }
    if c == 0 {
      if ch != [] { FreeChainKeepsCount(v, ch); }
    } else {
      ExtendBuilds(v0, v, ch, done, rest);
      if ch != [] { ChainNonZero(v.fat, ch, v.max); }
      ExtendCounts(w, ch, c, rest);
      var u, n := Extend(w, ch, c, rest), v.clusterBytes;
      if |rest| <= n {
        assert WriteLoop(u, ch + [c], rest[|rest|..]) == (u, ch + [c]);
      } else {
        WriteLoopCounts(v0, u, ch + [c], done + Chunk(rest, n), rest[n..]);
      }
    }
  }

  lemma WriteDataCounts(v: Vol, bytes: seq<Byte>)
    requires Shape(v)
    ensures var (w, ch, ok) := WriteData(v, bytes);
            (CountOk(v) ==> CountOk(w)) && (ok <==> ClustersFor(|bytes|, v.clusterBytes) <= FreeClusters(v))
  {
    if bytes != [] { WriteLoopCounts(v, v, [], [], bytes); }
  }
}
