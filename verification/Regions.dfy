/**
 Address-ordered lists of disjoint memory regions, shared by the physical page allocator
 and the kernel heap. Every split and every merge either allocator makes is one Splice:
 some neighbours replaced by regions inside the same stretch of memory.
 */
module Regions {
  datatype Region = Region(start: nat, size: nat, used: bool) {
    function End(): nat { start + size }
  }

  ghost predicate Ordered(rs: seq<Region>) {
    && (forall i :: 0 <= i < |rs| ==> rs[i].size > 0)
    && (forall i, j :: 0 <= i < j < |rs| ==> rs[i].End() <= rs[j].start)
  }

  predicate In(r: Region, x: int) { r.start <= x < r.End() }

  ghost predicate Covered(rs: seq<Region>, x: int) {
    exists i :: 0 <= i < |rs| && In(rs[i], x)
  }

  function TotalSize(rs: seq<Region>): nat {
    if rs == [] then 0 else rs[0].size + TotalSize(rs[1..])
  }

  function Splice(rs: seq<Region>, i: nat, j: nat, mid: seq<Region>): seq<Region>
    requires i <= j <= |rs|
  {
    rs[..i] + mid + rs[j..]
  }

  lemma SpliceOrdered(rs: seq<Region>, i: nat, j: nat, mid: seq<Region>)
    requires Ordered(rs) && Ordered(mid) && i < j <= |rs|
    requires forall m :: 0 <= m < |mid| ==> rs[i].start <= mid[m].start && mid[m].End() <= rs[j - 1].End()
    ensures Ordered(Splice(rs, i, j, mid))
  {
    var s := Splice(rs, i, j, mid);
    forall a, b | 0 <= a < b < |s| ensures s[a].End() <= s[b].start {
      if a < i && i <= b < i + |mid| {
        assert rs[a].End() <= rs[i].start;
      } else if i <= a < i + |mid| <= b {
        assert rs[j - 1].End() <= rs[b - |mid| - i + j].start;
      }
    }
  }

  lemma SpliceMembers(rs: seq<Region>, i: nat, j: nat, mid: seq<Region>)
    requires i <= j <= |rs|
    ensures forall r :: r in Splice(rs, i, j, mid) <==> r in rs[..i] || r in mid || r in rs[j..]
  {
  }

  lemma SpliceLength(rs: seq<Region>, i: nat, j: nat, mid: seq<Region>)
    requires i <= j <= |rs|
    ensures |Splice(rs, i, j, mid)| == |rs| - (j - i) + |mid|
  {
  }

  /** Coverage only depends on what the replaced and the replacing regions cover. */
  lemma SpliceCovered(rs: seq<Region>, i: nat, j: nat, mid: seq<Region>, x: int)
    requires i <= j <= |rs|
    ensures Covered(Splice(rs, i, j, mid), x) <==> Covered(rs[..i], x) || Covered(mid, x) || Covered(rs[j..], x)
    ensures Covered(rs, x) <==> Covered(rs[..i], x) || Covered(rs[i..j], x) || Covered(rs[j..], x)
  {
    CoveredConcat(rs[..i] + mid, rs[j..], x);
    CoveredConcat(rs[..i], mid, x);
    assert rs == rs[..i] + rs[i..j] + rs[j..];
    CoveredConcat(rs[..i] + rs[i..j], rs[j..], x);
    CoveredConcat(rs[..i], rs[i..j], x);
  }

  lemma CoveredConcat(a: seq<Region>, b: seq<Region>, x: int)
    ensures Covered(a + b, x) <==> Covered(a, x) || Covered(b, x)
  {
    var c := a + b;
    if Covered(a, x) { var i :| 0 <= i < |a| && In(a[i], x); assert In(c[i], x); }
    if Covered(b, x) { var i :| 0 <= i < |b| && In(b[i], x); assert In(c[|a| + i], x); }
    if Covered(c, x) {
      var i :| 0 <= i < |c| && In(c[i], x);
      if i < |a| { assert In(a[i], x); } else { assert In(b[i - |a|], x); }
    }
  }

  lemma {:induction false} TotalSizeConcat(a: seq<Region>, b: seq<Region>)
    ensures TotalSize(a + b) == TotalSize(a) + TotalSize(b)
  {
    if a == [] {
      assert a + b == b;
    } else {
      assert (a + b)[1..] == a[1..] + b;
      TotalSizeConcat(a[1..], b);
    }
  }

  lemma SpliceTotal(rs: seq<Region>, i: nat, j: nat, mid: seq<Region>)
    requires i <= j <= |rs|
    ensures TotalSize(Splice(rs, i, j, mid)) == TotalSize(rs) - TotalSize(rs[i..j]) + TotalSize(mid)
  {
    TotalSizeConcat(rs[..i] + mid, rs[j..]);
    TotalSizeConcat(rs[..i], mid);
    assert rs == rs[..i] + rs[i..j] + rs[j..];
    TotalSizeConcat(rs[..i] + rs[i..j], rs[j..]);
    TotalSizeConcat(rs[..i], rs[i..j]);
  }

  /** Two regions of an ordered list are the same or do not meet. */
  lemma OrderedDisjoint(rs: seq<Region>, a: Region, b: Region, x: int)
    requires Ordered(rs) && a in rs && b in rs && In(a, x) && In(b, x)
    ensures a == b
  {
    var i :| 0 <= i < |rs| && rs[i] == a;
    var j :| 0 <= j < |rs| && rs[j] == b;
  }

  lemma OrderedStarts(rs: seq<Region>, i: nat, j: nat)
    requires Ordered(rs) && i < |rs| && j < |rs| && rs[i].start == rs[j].start
    ensures i == j
  {
  }

  /** Replacing k by regions inside it covers no new address. */
  lemma SpliceCoversLess(rs: seq<Region>, i: nat, j: nat, mid: seq<Region>)
    requires i <= j <= |rs|
    requires forall x :: Covered(mid, x) ==> Covered(rs[i..j], x)
    ensures forall x :: Covered(Splice(rs, i, j, mid), x) ==> Covered(rs, x)
  {
    forall x | Covered(Splice(rs, i, j, mid), x) ensures Covered(rs, x) {
      SpliceCovered(rs, i, j, mid, x);
    }
  }

  // -------------------------------------------------------- live allocations

  /** An address is the start of some used region of the list. */
  ghost predicate UsedStart(rs: seq<Region>, a: nat) {
    exists r :: r in rs && r.used && r.start == a
  }

  /** An allocation that was handed out and not yet freed is the front of a used region. */
  ghost predicate LiveMatches(rs: seq<Region>, live: map<nat, nat>) {
    && (forall r :: r in rs && r.used ==> r.start in live && 0 < live[r.start] <= r.size)
    && (forall a :: a in live ==> UsedStart(rs, a))
  }

  lemma CarvedIsLive(rs: seq<Region>, k: nat, mid: seq<Region>, a: nat, req: nat, live: map<nat, nat>)
    requires Ordered(rs) && LiveMatches(rs, live) && k < |rs| && !rs[k].used && a !in live && req > 0
    requires forall m :: m in mid && m.used ==> m.start == a && m.size >= req
    requires UsedStart(mid, a)
    ensures LiveMatches(Splice(rs, k, k + 1, mid), live[a := req])
  {
    assert rs[k..k + 1] == [rs[k]];
    SpliceKeepsLive(rs, k, k + 1, mid, live, live[a := req]);
  }

  /** No live allocation starts inside a free region. */
  lemma NotLive(rs: seq<Region>, k: nat, a: nat, live: map<nat, nat>)
    requires Ordered(rs) && LiveMatches(rs, live) && k < |rs| && !rs[k].used && In(rs[k], a)
    ensures a !in live
  {
    if a in live {
      var r :| r in rs && r.used && r.start == a;
      OrderedDisjoint(rs, r, rs[k], a);
    }
  }

  /** Used regions outside a splice stay live; `after` says what is live inside it. */
  lemma SpliceKeepsLive(rs: seq<Region>, i: nat, j: nat, mid: seq<Region>, live: map<nat, nat>, after: map<nat, nat>)
    requires i <= j <= |rs| && Ordered(rs) && LiveMatches(rs, live)
    requires forall m :: m in mid && m.used ==> m.start in after && 0 < after[m.start] <= m.size
    requires forall a :: a in after ==> UsedStart(mid, a) || (a in live && !UsedStart(rs[i..j], a))
    requires forall r :: r in rs && r !in rs[i..j] && r.used ==> r.start in after && after[r.start] == live[r.start]
    ensures LiveMatches(Splice(rs, i, j, mid), after)
  {
    SpliceMembers(rs, i, j, mid);
    assert rs == rs[..i] + rs[i..j] + rs[j..];
    var s := Splice(rs, i, j, mid);
    forall r | r in s && r.used ensures r.start in after && 0 < after[r.start] <= r.size {
      if r !in mid { SpliceOutside(rs, i, j, r); }
    }
    forall a | a in after ensures UsedStart(s, a) {
      if !UsedStart(mid, a) {
        var r :| r in rs && r.used && r.start == a;
        assert r !in rs[i..j];
      }
    }
  }

  lemma SpliceOutside(rs: seq<Region>, i: nat, j: nat, r: Region)
    requires i <= j <= |rs| && Ordered(rs) && (r in rs[..i] || r in rs[j..])
    ensures r in rs && r !in rs[i..j]
  {
    var k :| 0 <= k < |rs| && rs[k] == r && (k < i || k >= j);
    assert forall m :: i <= m < j ==> rs[m].start != rs[k].start;
  }

  lemma MergedIsFreed(rs: seq<Region>, lo: nat, hi: nat, k: nat, one: Region, live: map<nat, nat>)
    requires Ordered(rs) && LiveMatches(rs, live) && lo <= k < hi <= |rs| && rs[k].used && !one.used
    requires forall m :: lo <= m < hi && m != k ==> !rs[m].used
    ensures LiveMatches(Splice(rs, lo, hi, [one]), live - {rs[k].start})
  {
    var after := live - {rs[k].start};
    assert rs[lo..hi][k - lo] == rs[k];
    forall r | r in rs[lo..hi] && r.used ensures r == rs[k] { }
    forall r | r in rs && r !in rs[lo..hi] && r.used ensures r.start in after {
      var m :| 0 <= m < |rs| && rs[m] == r;
    }
    SpliceKeepsLive(rs, lo, hi, [one], live, after);
  }

  /** Live allocations do not meet, and lie where the list does. */
  lemma LiveDisjoint(rs: seq<Region>, live: map<nat, nat>, a: nat, b: nat, x: int)
    requires Ordered(rs) && LiveMatches(rs, live) && a in live && a <= x < a + live[a]
    ensures Covered(rs, x)
    ensures b in live && b <= x < b + live[b] ==> a == b
  {
    var r :| r in rs && r.used && r.start == a;
    var i :| 0 <= i < |rs| && rs[i] == r;
    assert In(rs[i], x);
    if b in live && b <= x < b + live[b] {
      var q :| q in rs && q.used && q.start == b;
      OrderedDisjoint(rs, r, q, x);
    }
  }
}
