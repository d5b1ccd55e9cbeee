/**
 A FAT32 volume as the driver sees it above the sectors: the table of 28-bit entries, the
 bytes of each cluster, and the free count and next-free hint of the FSInfo sector.
 */
module FatModel {
  import opened Bytes

  const END_OF_CHAIN: nat := 0x0FFF_FFF8
  const UNKNOWN: nat := 0xFFFF_FFFF
  const U32: nat := 0x1_0000_0000

  /** Clusters 2 .. max hold data; the table may be longer than that. */
  datatype Vol = Vol(fat: seq<nat>, data: seq<seq<Byte>>, max: nat, clusterBytes: nat, freeCount: nat, hint: nat)

  predicate IsDataCluster(c: nat) { 2 <= c < END_OF_CHAIN }

  ghost predicate Shape(v: Vol) {
    && 2 <= v.max < END_OF_CHAIN - 1 && v.max < |v.fat| && |v.data| == v.max + 1 && v.clusterBytes > 0
    && (forall c :: 2 <= c <= v.max ==> |v.data[c]| == v.clusterBytes)
  }

  // --------------------------------------------------------------- allocator

  /** First free cluster from c on, or max + 1. */
  function Search(fat: seq<nat>, c: nat, max: nat): (r: nat)
    requires max < |fat| && c <= max + 1
    ensures c <= r <= max + 1
    ensures r <= max ==> fat[r] == 0
    ensures forall i :: c <= i < r ==> fat[i] != 0
    decreases max + 1 - c
  {
    if c > max || fat[c] == 0 then c else Search(fat, c + 1, max)
  }

  /** The two passes of allocate_cluster: from the hint on, then from cluster 2. */
  function FindFree(v: Vol): (r: nat)
    requires 2 <= v.max < |v.fat|
    ensures 2 <= r <= v.max + 1
    ensures r <= v.max ==> v.fat[r] == 0
    ensures r > v.max ==> forall i :: 2 <= i <= v.max ==> v.fat[i] != 0
  {
    var start := if v.hint < 2 || v.hint > v.max then 2 else v.hint;
    var r := Search(v.fat, start, v.max);
    if r <= v.max then r else Search(v.fat, 2, v.max)
  }

  function CountAfterAlloc(n: nat): (r: nat)
    ensures n < U32 ==> r < U32
  {
    if n == UNKNOWN then UNKNOWN else (n - 1) % U32
  }

  /** allocate_cluster: the volume and the cluster, 0 when none is free. */
  function Allocate(v: Vol): (Vol, nat)
    requires 2 <= v.max < |v.fat|
  {
    var c := FindFree(v);
    if c > v.max then (v, 0)
    else (v.(fat := v.fat[c := END_OF_CHAIN], freeCount := CountAfterAlloc(v.freeCount),
             hint := if c + 1 > v.max then 2 else c + 1), c)
  }

  // -------------------------------------------------------------- free chain

  function NonZero(fat: seq<nat>): (n: nat)
    ensures n <= |fat|
  {
    if fat == [] then 0 else (if fat[0] != 0 then 1 else 0) + NonZero(fat[1..])
  }

  lemma {:induction false} NonZeroUpdate(fat: seq<nat>, c: nat, value: nat)
    requires c < |fat|
    ensures NonZero(fat[c := value]) == NonZero(fat) - (if fat[c] != 0 then 1 else 0) + (if value != 0 then 1 else 0)
  {
    if c == 0 {
      assert fat[c := value][1..] == fat[1..];
    } else {
      assert fat[c := value][1..] == fat[1..][c - 1 := value];
      NonZeroUpdate(fat[1..], c - 1, value);
    }
  }

  /** The loop of free_cluster_chain on any table, cyclic ones included: every iteration but
      the last turns a nonzero entry into zero. Result: table, entries freed, no read error. */
  function FreeWalk(fat: seq<nat>, cur: nat): (seq<nat>, nat, bool)
    decreases NonZero(fat)
  {
    if cur >= |fat| then (fat, 0, false)
    else
      var next := fat[cur];
      NonZeroUpdate(fat, cur, 0);
      if !IsDataCluster(next) then (fat[cur := 0], 1, true)
      else var (rest, freed, ok) := FreeWalk(fat[cur := 0], next); (rest, freed + 1, ok)
  }

  function CountAfterFree(n: nat, freed: nat): nat { if n == UNKNOWN then UNKNOWN else (n + freed) % U32 }

  function HintAfterFree(hint: nat, first: nat): nat {
    if hint == UNKNOWN || first < hint then first else hint
  }

  /** free_cluster_chain: the volume, and whether every table read succeeded. */
  function FreeChain(v: Vol, first: nat): (Vol, bool) {
    if !IsDataCluster(first) then (v, true)
    else
      var (fat, freed, ok) := FreeWalk(v.fat, first);
      if !ok then (v.(fat := fat), false)
      else (v.(fat := fat, freeCount := CountAfterFree(v.freeCount, freed), hint := HintAfterFree(v.hint, first)), true)
  }

  // ------------------------------------------------------------------ chains

  ghost predicate Distinct(ch: seq<nat>) {
    forall i, j :: 0 <= i < j < |ch| ==> ch[i] != ch[j]
  }

  /** A well-formed chain: in range, acyclic, linked in order and end-terminated. */
  ghost predicate Chain(fat: seq<nat>, ch: seq<nat>, max: nat) {
    && |ch| > 0 && max < |fat| && Distinct(ch)
    && (forall i :: 0 <= i < |ch| ==> 2 <= ch[i] <= max)
    && (forall i :: 0 <= i < |ch| - 1 ==> fat[ch[i]] == ch[i + 1])
    && fat[ch[|ch| - 1]] >= END_OF_CHAIN
  }

  /** The table with all entries of a chain zeroed. */
  function ZeroAll(fat: seq<nat>, ch: seq<nat>): (r: seq<nat>)
    ensures |r| == |fat| && forall c :: 0 <= c < |fat| ==> r[c] == if c in ch then 0 else fat[c]
  {
    seq(|fat|, c requires 0 <= c < |fat| => if c in ch then 0 else fat[c])
  }

  /** The bytes of a chain's clusters, one after the other. */
  function Concat(data: seq<seq<Byte>>, ch: seq<nat>): seq<Byte>
    requires forall i :: 0 <= i < |ch| ==> ch[i] < |data|
  {
    if ch == [] then [] else data[ch[0]] + Concat(data, ch[1..])
  }

  // ------------------------------------------------------------------- write

  /** What lands in a cluster: the next bytes, zero-filled to the cluster size. */
  function Chunk(bytes: seq<Byte>, n: nat): (r: seq<Byte>)
    ensures |r| == n
    ensures |bytes| >= n ==> r == bytes[..n]
    ensures |bytes| < n ==> r[..|bytes|] == bytes
  {
    if |bytes| >= n then bytes[..n] else bytes + Zeros(n - |bytes|)
  }

  /** Link the last cluster of a chain to a new one and fill that one. */
  function Extend(v: Vol, ch: seq<nat>, c: nat, bytes: seq<Byte>): Vol
    requires c < |v.data| && (ch != [] ==> ch[|ch| - 1] < |v.fat|)
  {
    v.(fat := if ch == [] then v.fat else v.fat[ch[|ch| - 1] := c], data := v.data[c := Chunk(bytes, v.clusterBytes)])
  }

  /** The loop of write_file_data: `ch` is built, `rest` still to be written. When space runs
      out the chain so far is freed and the result is empty. */
  function WriteLoop(v: Vol, ch: seq<nat>, rest: seq<Byte>): (Vol, seq<nat>)
    requires 2 <= v.max < |v.fat| && |v.data| == v.max + 1 && v.clusterBytes > 0
    requires forall i :: 0 <= i < |ch| ==> ch[i] <= v.max
    decreases |rest|
  {
    if rest == [] then (v, ch)
    else
      var (w, c) := Allocate(v);
      if c == 0 then (if ch == [] then w else FreeChain(w, ch[0]).0, [])
      else
        var n := if |rest| < v.clusterBytes then |rest| else v.clusterBytes;
        WriteLoop(Extend(w, ch, c, rest), ch + [c], rest[n..])
  }

  /** write_file_data: volume, chain and success; no bytes need no cluster. */
  function WriteData(v: Vol, bytes: seq<Byte>): (Vol, seq<nat>, bool)
    requires 2 <= v.max < |v.fat| && |v.data| == v.max + 1 && v.clusterBytes > 0
  {
    var (w, ch) := WriteLoop(v, [], bytes);
    (w, ch, bytes == [] || ch != [])
  }

  function FirstOf(ch: seq<nat>): nat { if ch == [] then 0 else ch[0] }

  // -------------------------------------------------------------- accounting

  /** Free data clusters: zero entries among 2 .. max. */
  function FreeClusters(v: Vol): nat
    requires 2 <= v.max < |v.fat|
  {
    v.max - 1 - NonZero(v.fat[2..v.max + 1])
  }
}
