/**
 The 32-byte slots of a directory: the bytes of its clusters in chain order, cut into slots.
 */
module FatSlots {
  import opened Bytes
  import opened FatModel
  import opened FatProofs
  import opened FatDisk
  import opened FatRuns
  import opened FatNames
  import opened FatDirectory

  function SlotAt(b: seq<Byte>, x: nat): Slot
    requires 32 * x + 32 <= |b|
  {
    b[32 * x..32 * x + 32]
  }

  function ToSlots(b: seq<Byte>): (r: seq<Slot>)
    ensures |r| == |b| / 32
  {
    seq<Slot>(|b| / 32, x requires 0 <= x < |b| / 32 => SlotAt(b, x))
  }

  /** The slots of the directory with chain ch. */
  function DirSlots(data: seq<seq<Byte>>, ch: seq<nat>): seq<Slot>
    requires forall i :: 0 <= i < |ch| ==> ch[i] < |data|
  {
    ToSlots(Concat(data, ch))
  }

  lemma Times32(a: nat, per: nat)
    ensures a * (32 * per) == 32 * (a * per)
  {
  }

  /** Slot x of the chain's cluster k. */
  lemma SlotOf(data: seq<seq<Byte>>, ch: seq<nat>, per: nat, k: nat, x: nat)
    requires Whole(data, ch, 32 * per) && k < |ch| && x < per
    ensures |DirSlots(data, ch)| == |ch| * per && k * per + x < |ch| * per
    ensures DirSlots(data, ch)[k * per + x] == SlotAt(data[ch[k]], x)
  {
    SlotCount(data, ch, per);
    MulBound(k, |ch|, x, per);
    ConcatInside(data, ch, 32 * per, k, 32 * x, 32);
    Times32(k, per);
    hide Concat;
  }

  lemma SlotCount(data: seq<seq<Byte>>, ch: seq<nat>, per: nat)
    requires Whole(data, ch, 32 * per)
    ensures |DirSlots(data, ch)| == |ch| * per
  {
    ConcatLength(data, ch, 32 * per);
    Times32(|ch|, per);
  }

  /** Slot i split into cluster and place. */
  lemma SlotPlace(i: nat, per: nat, n: nat)
    requires per > 0 && i < n * per
    ensures 0 <= i / per < n && 0 <= i % per < per && i == i / per * per + i % per
  {
    DivLaw(i, per);
    UnitIndex(i, per, n);
  }

  // ------------------------------------------------------------------ writing

  /** Slot i of the chain replaced in its cluster. */
  function PutSlot(data: seq<seq<Byte>>, ch: seq<nat>, per: nat, i: nat, s: Slot): (r: seq<seq<Byte>>)
    requires Whole(data, ch, 32 * per) && per > 0 && i < |ch| * per
    ensures |r| == |data|
  {
    SlotPlace(i, per, |ch|);
    var c := ch[i / per];
    data[c := PutBytes(data[c], 32 * (i % per), s)]
  }

  lemma SlotAfterPut(b: seq<Byte>, y: nat, s: Slot, x: nat)
    requires 32 * y + 32 <= |b| && 32 * x + 32 <= |b|
    ensures SlotAt(PutBytes(b, 32 * y, s), x) == if x == y then s else SlotAt(b, x)
  {
    var r := PutBytes(b, 32 * y, s);
    assert forall k :: 0 <= k < |b| ==> r[k] == if 32 * y <= k < 32 * y + 32 then s[k - 32 * y] else b[k];
  }

  lemma PutSlotWhole(data: seq<seq<Byte>>, ch: seq<nat>, per: nat, i: nat, s: Slot, other: seq<nat>)
    requires Whole(data, ch, 32 * per) && per > 0 && i < |ch| * per && Whole(data, other, 32 * per)
    ensures Whole(PutSlot(data, ch, per, i, s), other, 32 * per)
  {
    SlotPlace(i, per, |ch|);
  }

  /** One slot of the directory changes. */
  lemma PutSlotChanges(data: seq<seq<Byte>>, ch: seq<nat>, per: nat, i: nat, s: Slot)
    requires Whole(data, ch, 32 * per) && per > 0 && i < |ch| * per && Distinct(ch)
    ensures |DirSlots(data, ch)| == |ch| * per
    ensures DirSlots(PutSlot(data, ch, per, i, s), ch) == DirSlots(data, ch)[i := s]
  {
    hide DirSlots, PutBytes;
    var after := PutSlot(data, ch, per, i, s);
    PutSlotWhole(data, ch, per, i, s, ch);
    SlotCount(data, ch, per);
    SlotCount(after, ch, per);
    forall j | 0 <= j < |ch| * per ensures DirSlots(after, ch)[j] == if j == i then s else DirSlots(data, ch)[j] {
      PutSlotAt(data, ch, per, i, s, j);
    }
  }

  lemma PutSlotAt(data: seq<seq<Byte>>, ch: seq<nat>, per: nat, i: nat, s: Slot, j: nat)
    requires Whole(data, ch, 32 * per) && per > 0 && i < |ch| * per && j < |ch| * per && Distinct(ch)
    ensures |DirSlots(data, ch)| == |ch| * per == |DirSlots(PutSlot(data, ch, per, i, s), ch)|
    ensures DirSlots(PutSlot(data, ch, per, i, s), ch)[j] == if j == i then s else DirSlots(data, ch)[j]
  {
    hide DirSlots, PutBytes;
    SlotPlace(i, per, |ch|);
    SlotPlace(j, per, |ch|);
    PutSlotWhole(data, ch, per, i, s, ch);
    var k, x := j / per, j % per;
    SlotOf(data, ch, per, k, x);
    SlotOf(PutSlot(data, ch, per, i, s), ch, per, k, x);
    SlotAfterPut(data[ch[i / per]], i % per, s, x);
    assert ch[k] == ch[i / per] <==> k == i / per;
  }

  // ---------------------------------------------------------------- appending

  /** b is a with zeroed slots behind it. */
  ghost predicate Grown(a: seq<Slot>, b: seq<Slot>) {
    a <= b && forall j :: |a| <= j < |b| ==> IsEnd(b[j])
  }

  lemma AppendSlotAt(data: seq<seq<Byte>>, after: seq<seq<Byte>>, ch: seq<nat>, c: nat, per: nat, k: nat, x: nat)
    requires Whole(data, ch, 32 * per) && |after| == |data| && c < |data| && after[c] == Zeros(32 * per)
    requires forall i :: 0 <= i < |ch| ==> after[ch[i]] == data[ch[i]]
    requires k <= |ch| && x < per
    ensures Whole(after, ch + [c], 32 * per) && |DirSlots(data, ch)| == |ch| * per
    ensures k * per + x < |DirSlots(after, ch + [c])|
    ensures var slot := DirSlots(after, ch + [c])[k * per + x];
            if k < |ch| then k * per + x < |ch| * per && slot == DirSlots(data, ch)[k * per + x]
              else |ch| * per <= k * per + x && IsEnd(slot)
  {
    hide DirSlots;
    SlotCount(data, ch, per);
    SlotOf(after, ch + [c], per, k, x);
    if k < |ch| { SlotOf(data, ch, per, k, x); }
  }

  /** A chain with one more, zeroed, cluster. */
  lemma AppendSlots(data: seq<seq<Byte>>, after: seq<seq<Byte>>, ch: seq<nat>, c: nat, per: nat)
    requires Whole(data, ch, 32 * per) && per > 0 && |after| == |data| && c < |data| && after[c] == Zeros(32 * per)
    requires forall i :: 0 <= i < |ch| ==> after[ch[i]] == data[ch[i]]
    ensures forall i :: 0 <= i < |ch + [c]| ==> (ch + [c])[i] < |after|
    ensures Grown(DirSlots(data, ch), DirSlots(after, ch + [c]))
  {
    hide DirSlots, IsEnd;
    AppendSlotAt(data, after, ch, c, per, |ch|, 0);
    SlotCount(after, ch + [c], per);
    assert (|ch| + 1) * per == |ch| * per + per;
    var a, b := DirSlots(data, ch), DirSlots(after, ch + [c]);
    forall j | 0 <= j < |b| ensures if j < |a| then b[j] == a[j] else IsEnd(b[j]) {
      SlotPlace(j, per, |ch| + 1);
      AppendSlotAt(data, after, ch, c, per, j / per, j % per);
    }
  }

  lemma GrownKeeps(a: seq<Slot>, b: seq<Slot>)
    requires WellFormed(a) && Grown(a, b)
    ensures WellFormed(b) && Scan(b, 0, []) == Scan(a, 0, [])
  {
    ScanGrown(a, b, 0, []);
    hide Scan, IsLfn, IsShort;
    EndIsNotLfn(b);
    forall e | e in Scan(b, 0, []) && 0 < StartOf(e) <= |b| ensures !IsLfn(b[StartOf(e) - 1]) { }
  }

  lemma EndIsNotLfn(b: seq<Slot>)
    ensures forall j :: 0 <= j < |b| && IsEnd(b[j]) ==> !IsLfn(b[j])
  {
  }

  lemma {:induction false} ScanGrown(a: seq<Slot>, b: seq<Slot>, i: nat, pending: seq<nat>)
    requires Grown(a, b) && i <= |a| && forall k :: 0 <= k < |pending| ==> pending[k] < i
    ensures Scan(b, i, pending) == Scan(a, i, pending)
    decreases |a| - i
  {
    if i < |a| && !IsEnd(a[i]) {
      assert Select(a, pending) == Select(b, pending);
      if IsLfn(a[i]) { ScanGrown(a, b, i + 1, Push(pending, i)); } else { ScanGrown(a, b, i + 1, []); }
    }
  }

  lemma {:induction false} RunStateGrown(a: seq<Slot>, b: seq<Slot>, i: nat)
    requires a <= b && i <= |a|
    ensures RunState(b, i) == RunState(a, i)
  {
    if i > 0 { RunStateGrown(a, b, i - 1); }
  }

  lemma GrownTrans(a: seq<Slot>, b: seq<Slot>, c: seq<Slot>)
    requires Grown(a, b) && Grown(b, c)
    ensures Grown(a, c)
  {
  }
}
