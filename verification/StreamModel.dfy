/**
 A buffered writable stream as a byte sequence with a position, and the reference it refines: an
 infinite array of cells, zero beyond the length.
 */
module StreamModel {
  import opened Machine
  import opened Bytes
  import opened Wrappers

  const I64_LIMIT: nat := 0x8000_0000_0000_0000

  datatype Mode = Mode(readable: bool, writable: bool, append: bool)

  datatype File = File(bytes: seq<Byte>, pos: nat, dirty: bool)

  // -------------------------------------------------------------- operations

  /** file_read: the bytes from the position on, at most n. */
  function Read(m: Mode, f: File, n: nat): (File, seq<Byte>) {
    if !m.readable || f.pos >= |f.bytes| then (f, [])
    else
      var k := if |f.bytes| - f.pos < n then |f.bytes| - f.pos else n;
      (f.(pos := f.pos + k), f.bytes[f.pos..f.pos + k])
  }

  function Padded(bytes: seq<Byte>, n: nat): (r: seq<Byte>)
    ensures |r| >= n && |r| >= |bytes|
  {
    if n <= |bytes| then bytes else bytes + Zeros(n - |bytes|)
  }

  function Overlay(bytes: seq<Byte>, at: nat, data: seq<Byte>): seq<Byte>
    requires at <= |bytes|
  {
    bytes[..at] + data + (if at + |data| < |bytes| then bytes[at + |data|..] else [])
  }

  function WriteStart(m: Mode, f: File): nat { if m.append then |f.bytes| else f.pos }

  /** file_write: pad up to the position, then overwrite and extend. An end beyond 64 bits is an
      error, but the padding stays and is not marked as a change. */
  function Write(m: Mode, f: File, data: seq<Byte>): (File, nat) {
    if !m.writable then (f, 0)
    else
      var at := WriteStart(m, f);
      var padded := Padded(f.bytes, at);
      if at + |data| >= U64 then (File(padded, at, f.dirty), 0)
      else (File(Overlay(padded, at, data), at + |data|, true), |data|)
  }

  function ToI64(x: nat): int { if x % U64 < I64_LIMIT then x % U64 else x % U64 - U64 }

  function SeekBase(f: File, whence: int): Option<int> {
    if whence == 0 then Some(0)
    else if whence == 1 then Some(ToI64(f.pos))
    else if whence == 2 then Some(ToI64(|f.bytes|))
    else None
  }

  /** file_seek: any non-negative target, also beyond the end. */
  function Seek(f: File, offset: int, whence: int): (File, bool) {
    match SeekBase(f, whence)
    case None => (f, false)
    case Some(base) => if base + offset < 0 then (f, false) else (f.(pos := base + offset), true)
  }

  /** file_truncate: cut or zero-extend; the position stays inside. */
  function Truncate(m: Mode, f: File, length: int): (File, bool) {
    if !m.writable || length < 0 then (f, false)
    else
      var bytes := Padded(f.bytes, length)[..length];
      (File(bytes, if f.pos > length then length else f.pos, true), true)
  }

  // --------------------------------------------------------------- reference

  /** Cells of a file that never ends; `len` is how much of it counts. */
  datatype Sparse = Sparse(len: nat, cell: nat -> Byte, pos: nat)

  datatype Op = ReadOp(n: nat) | WriteOp(data: seq<Byte>) | SeekOp(offset: int, whence: int) | TruncateOp(length: int)

  function RefStep(m: Mode, r: Sparse, op: Op): Sparse {
    match op
    case ReadOp(n) =>
      if !m.readable || r.pos >= r.len then r else r.(pos := if r.pos + n < r.len then r.pos + n else r.len)
    case WriteOp(data) =>
      if !m.writable then r
      else
        var at := if m.append then r.len else r.pos;
        if at + |data| >= U64 then r.(len := Max(r.len, at), pos := at)
        else Sparse(Max(r.len, at + |data|),
                    (i: nat) => if at <= i < at + |data| then data[i - at] else r.cell(i), at + |data|)
    case SeekOp(offset, whence) =>
      if whence == 0 && offset >= 0 then r.(pos := offset)
      else if whence == 1 && ToI64(r.pos) + offset >= 0 then r.(pos := ToI64(r.pos) + offset)
      else if whence == 2 && ToI64(r.len) + offset >= 0 then r.(pos := ToI64(r.len) + offset)
      else r
    case TruncateOp(length) =>
      if !m.writable || length < 0 then r
      else Sparse(length, (i: nat) => var b: Byte := if i < length then r.cell(i) else 0; b,
                  if r.pos > length then length else r.pos)
  }

  function Step(m: Mode, f: File, op: Op): File {
    match op
    case ReadOp(n) => Read(m, f, n).0
    case WriteOp(data) => Write(m, f, data).0
    case SeekOp(offset, whence) => Seek(f, offset, whence).0
    case TruncateOp(length) => Truncate(m, f, length).0
  }

  function ByteAt(bytes: seq<Byte>, i: nat): Byte { if i < |bytes| then bytes[i] else 0 }

  /** Same length and position, same cells, and zero beyond the length. */
  ghost predicate Refines(f: File, r: Sparse) {
    |f.bytes| == r.len && f.pos == r.pos && forall i: nat :: ByteAt(f.bytes, i) == r.cell(i)
  }

  // ------------------------------------------------------------------ proofs

  lemma PaddedBytes(bytes: seq<Byte>, n: nat, i: nat)
    ensures ByteAt(Padded(bytes, n), i) == ByteAt(bytes, i) && |Padded(bytes, n)| == Max(|bytes|, n)
  {
  }

  lemma OverlayBytes(bytes: seq<Byte>, at: nat, data: seq<Byte>, i: nat)
    requires at <= |bytes|
    ensures |Overlay(bytes, at, data)| == Max(|bytes|, at + |data|)
    ensures ByteAt(Overlay(bytes, at, data), i) == if at <= i < at + |data| then data[i - at] else ByteAt(bytes, i)
  {
  }

  lemma WriteRefines(m: Mode, f: File, r: Sparse, data: seq<Byte>)
    requires Refines(f, r)
    ensures Refines(Write(m, f, data).0, RefStep(m, r, WriteOp(data)))
  {
    if m.writable {
      var at := WriteStart(m, f);
      var padded := Padded(f.bytes, at);
      var (f', n) := Write(m, f, data);
      var r' := RefStep(m, r, WriteOp(data));
      forall i: nat ensures ByteAt(f'.bytes, i) == r'.cell(i) {
        PaddedBytes(f.bytes, at, i);
        OverlayBytes(padded, at, data, i);
        assert ByteAt(f.bytes, i) == r.cell(i);
      }
      PaddedBytes(f.bytes, at, 0);
      OverlayBytes(padded, at, data, 0);
    }
  }

  lemma TruncateRefines(m: Mode, f: File, r: Sparse, length: int)
    requires Refines(f, r)
    ensures Refines(Truncate(m, f, length).0, RefStep(m, r, TruncateOp(length)))
  {
    if m.writable && length >= 0 {
      var f' := Truncate(m, f, length).0;
      var r' := RefStep(m, r, TruncateOp(length));
      forall i: nat ensures ByteAt(f'.bytes, i) == r'.cell(i) {
        PaddedBytes(f.bytes, length, i);
        assert ByteAt(f.bytes, i) == r.cell(i);
      }
    }
  }

  lemma StepRefines(m: Mode, f: File, r: Sparse, op: Op)
    requires Refines(f, r)
    ensures Refines(Step(m, f, op), RefStep(m, r, op))
  {
    match op
    case ReadOp(n) =>
    case WriteOp(data) => WriteRefines(m, f, r, data);
    case SeekOp(offset, whence) =>
    case TruncateOp(length) => TruncateRefines(m, f, r, length);
  }

  /** What a read returns are the reference's cells from its position on. */
  lemma ReadReturnsCells(m: Mode, f: File, r: Sparse, n: nat)
    requires Refines(f, r) && m.readable
    ensures var out := Read(m, f, n).1;
            && |out| == (if r.pos >= r.len then 0 else if r.len - r.pos < n then r.len - r.pos else n)
            && forall k :: 0 <= k < |out| ==> out[k] == r.cell(r.pos + k)
  {
    var out := Read(m, f, n).1;
    forall k | 0 <= k < |out| ensures out[k] == r.cell(r.pos + k) {
      assert ByteAt(f.bytes, r.pos + k) == r.cell(r.pos + k);
    }
  }

  function Run(m: Mode, f: File, ops: seq<Op>): File
    decreases |ops|
  {
    if ops == [] then f else Run(m, Step(m, f, ops[0]), ops[1..])
  }

  function RefRun(m: Mode, r: Sparse, ops: seq<Op>): Sparse
    decreases |ops|
  {
    if ops == [] then r else RefRun(m, RefStep(m, r, ops[0]), ops[1..])
  }

  /** Any sequence of operations behaves as on the infinite zero-filled file. */
  lemma {:induction false} RunRefines(m: Mode, f: File, r: Sparse, ops: seq<Op>)
    requires Refines(f, r)
    ensures Refines(Run(m, f, ops), RefRun(m, r, ops))
    decreases |ops|
  {
    if ops != [] {
      StepRefines(m, f, r, ops[0]);
      RunRefines(m, Step(m, f, ops[0]), RefStep(m, r, ops[0]), ops[1..]);
    }
  }

  /** Writing and reading back at the same place. */
  lemma WriteThenRead(m: Mode, f: File, data: seq<Byte>)
    requires m.readable && m.writable && !m.append && f.pos + |data| < I64_LIMIT
    ensures var g := Write(m, f, data).0;
            Read(m, Seek(g, f.pos, 0).0, |data|).1 == data
  {
    var padded := Padded(f.bytes, f.pos);
    var all := Overlay(padded, f.pos, data);
    assert all[f.pos..f.pos + |data|] == data;
  }

  // ------------------------------------------------------------ open and close

  /** What a writable open finds: the stored bytes, or none when it truncates or the file is new. */
  function Opened(stored: Option<seq<Byte>>, truncate: bool, append: bool): File {
    var bytes := if stored.None? || truncate then [] else stored.value;
    File(bytes, if append then |bytes| else 0, false)
  }

  /** close_stream: the backend's file afterwards. */
  function Closed(stored: Option<seq<Byte>>, f: File): Option<seq<Byte>> {
    if f.dirty then Some(f.bytes) else stored
  }

  /** The operation marks the stream as changed: a truncate, or a write that ends within 64 bits. */
  predicate Marks(m: Mode, f: File, op: Op) {
    m.writable && ((op.WriteOp? && WriteStart(m, f) + |op.data| < U64) || (op.TruncateOp? && op.length >= 0))
  }

  predicate SomeMark(m: Mode, f: File, ops: seq<Op>)
    decreases |ops|
  {
    ops != [] && (Marks(m, f, ops[0]) || SomeMark(m, Step(m, f, ops[0]), ops[1..]))
  }

  /** How far writes that end beyond 64 bits, and so fail, have padded the stream. */
  function PadEnd(m: Mode, f: File, ops: seq<Op>): nat
    decreases |ops|
  {
    if ops == [] then 0
    else
      var here := if m.writable && ops[0].WriteOp? && WriteStart(m, f) + |ops[0].data| >= U64 then WriteStart(m, f)
        else 0;
      Max(here, PadEnd(m, Step(m, f, ops[0]), ops[1..]))
  }

  lemma PaddedTwice(bytes: seq<Byte>, a: nat, b: nat)
    ensures Padded(Padded(bytes, a), b) == Padded(bytes, Max(a, b))
  {
    var l, r := Padded(Padded(bytes, a), b), Padded(bytes, Max(a, b));
    assert |l| == |r|;
    forall i | 0 <= i < |l| ensures l[i] == r[i] {
      PaddedBytes(Padded(bytes, a), b, i);
      PaddedBytes(bytes, a, i);
      PaddedBytes(bytes, Max(a, b), i);
    }
  }

  /** A stream is dirty exactly after a marking operation; a clean one has its first bytes, padded. */
  lemma {:induction false} DirtyIffMarked(m: Mode, f: File, ops: seq<Op>)
    ensures Run(m, f, ops).dirty <==> f.dirty || SomeMark(m, f, ops)
    ensures !SomeMark(m, f, ops) ==> Run(m, f, ops).bytes == Padded(f.bytes, PadEnd(m, f, ops))
    decreases |ops|
  {
    hide Overlay;
    if ops != [] {
      var g := Step(m, f, ops[0]);
      DirtyIffMarked(m, g, ops[1..]);
      if !Marks(m, f, ops[0]) {
        var here := if m.writable && ops[0].WriteOp? && WriteStart(m, f) + |ops[0].data| >= U64 then WriteStart(m, f)
          else 0;
        assert g.bytes == Padded(f.bytes, here);
        PaddedTwice(f.bytes, here, PadEnd(m, g, ops[1..]));
      }
    }
  }

  /**
   Closing leaves the backend with exactly the stream's bytes if and only if something was
   written or truncated, or what was stored is what the open found, padded by failed writes. So a
   truncating open, or the open of a new file, followed by no change stores nothing.
   */
  lemma CloseStores(m: Mode, stored: Option<seq<Byte>>, truncate: bool, ops: seq<Op>)
    ensures var o := Opened(stored, truncate, m.append); var f := Run(m, o, ops);
            Closed(stored, f) == Some(f.bytes) <==>
              SomeMark(m, o, ops) || stored == Some(Padded(o.bytes, PadEnd(m, o, ops)))
  {
    DirtyIffMarked(m, Opened(stored, truncate, m.append), ops);
  }

  /** A file opened for truncation and closed again keeps its old bytes. */
  lemma TruncatingOpenWitness(m: Mode)
    ensures Closed(Some([65]), Run(m, Opened(Some([65]), true, m.append), [])) == Some([65])
  {
  }

  // ---------------------------------------------------------- whole sessions

  /**
   What an open finds, on the reference: after a truncating open, or of a new file, no length and
   only zero cells; otherwise the stored bytes. The position is the length exactly in append mode
   or when there is no length.
   */
  lemma OpenFinds(stored: Option<seq<Byte>>, truncate: bool, append: bool, i: nat)
    ensures var f := Opened(stored, truncate, append);
            && !f.dirty && (f.pos == |f.bytes| <==> append || |f.bytes| == 0) && (!append ==> f.pos == 0)
            && (truncate || stored.None? ==> |f.bytes| == 0 && ByteAt(f.bytes, i) == 0)
            && (!truncate && stored.Some? ==>
                  |f.bytes| == |stored.value| && ByteAt(f.bytes, i) == ByteAt(stored.value, i))
  {
  }

  /** The reference file an open starts from. */
  function RefOpened(stored: Option<seq<Byte>>, truncate: bool, append: bool): Sparse {
    match stored
    case Some(bytes) =>
      if truncate then Sparse(0, (i: nat) => 0, 0)
      else Sparse(|bytes|, (i: nat) => ByteAt(bytes, i), if append then |bytes| else 0)
    case None => Sparse(0, (i: nat) => 0, 0)
  }

  /** Some operation was answered with success: a write within 64 bits, or a truncate. */
  predicate Changed(m: Mode, r: Sparse, ops: seq<Op>)
    decreases |ops|
  {
    && ops != []
    && (|| (ops[0].WriteOp? && m.writable && (if m.append then r.len else r.pos) + |ops[0].data| < U64)
        || (ops[0].TruncateOp? && m.writable && ops[0].length >= 0)
        || Changed(m, RefStep(m, r, ops[0]), ops[1..]))
  }

  lemma {:induction false} ChangedIsMarked(m: Mode, f: File, r: Sparse, ops: seq<Op>)
    requires Refines(f, r)
    ensures Changed(m, r, ops) <==> SomeMark(m, f, ops)
    decreases |ops|
  {
    hide Refines, Step, RefStep;
    if ops != [] {
      SameStart(m, f, r);
      StepRefines(m, f, r, ops[0]);
      ChangedIsMarked(m, Step(m, f, ops[0]), RefStep(m, r, ops[0]), ops[1..]);
    }
  }

  lemma SameStart(m: Mode, f: File, r: Sparse)
    requires Refines(f, r)
    ensures WriteStart(m, f) == if m.append then r.len else r.pos
  {
  }

  /**
   A whole session, open to close: if any operation was answered with success the backend
   holds exactly the cells of the reference file, and otherwise what it held before.
   */
  lemma SessionStores(m: Mode, stored: Option<seq<Byte>>, truncate: bool, ops: seq<Op>)
    ensures var start := RefOpened(stored, truncate, m.append);
            var r := RefRun(m, start, ops);
            var after := Closed(stored, Run(m, Opened(stored, truncate, m.append), ops));
            if Changed(m, start, ops) then
              && after.Some? && |after.value| == r.len
              && forall i :: 0 <= i < r.len ==> after.value[i] == r.cell(i)
            else after == stored
  {
    var f, start := Opened(stored, truncate, m.append), RefOpened(stored, truncate, m.append);
    assert Refines(f, start);
    RunRefines(m, f, start, ops);
    DirtyIffMarked(m, f, ops);
    ChangedIsMarked(m, f, start, ops);
    var g, r := Run(m, f, ops), RefRun(m, start, ops);
    forall i | 0 <= i < r.len ensures g.bytes[i] == r.cell(i) { assert ByteAt(g.bytes, i) == r.cell(i); }
  }

  /** Open with truncation, write, close: exactly the data is stored. */
  lemma TruncateWriteClose(m: Mode, stored: Option<seq<Byte>>, data: seq<Byte>)
    requires m.writable && |data| < U64
    ensures Closed(stored, Write(m, Opened(stored, true, m.append), data).0) == Some(data)
  {
    assert Overlay([], 0, data) == data;
  }

  /** Open for appending, write, close: the data follows the old bytes. */
  lemma AppendWriteClose(m: Mode, was: seq<Byte>, data: seq<Byte>)
    requires m.writable && m.append && |was| + |data| < U64
    ensures Closed(Some(was), Write(m, Opened(Some(was), false, true), data).0) == Some(was + data)
  {
    assert Overlay(was, |was|, data) == was + data;
  }

  /** Open for update, write, close: the data replaces the front. */
  lemma UpdateWriteClose(m: Mode, was: seq<Byte>, data: seq<Byte>)
    requires m.writable && !m.append && |data| <= |was| && |data| < U64
    ensures Closed(Some(was), Write(m, Opened(Some(was), false, false), data).0) == Some(data + was[|data|..])
  {
    assert Overlay(was, 0, data) == data + was[|data|..];
  }

  /** Below 2^63 a seek lands where whence and offset say, and is refused exactly before the start. */
  lemma SeekReaches(f: File, offset: int, whence: int)
    requires f.pos < I64_LIMIT && |f.bytes| < I64_LIMIT
    ensures var (g, ok) := Seek(f, offset, whence);
            var target := offset + if whence == 0 then 0 else if whence == 1 then f.pos else |f.bytes|;
            && (ok <==> 0 <= whence <= 2 && target >= 0) && g.bytes == f.bytes && g.dirty == f.dirty
            && g.pos == if ok then target else f.pos
  {
  }

  /** What write and truncate answer: all bytes or none, and success exactly when the file changed as asked. */
  lemma WriteAnswers(m: Mode, f: File, data: seq<Byte>, length: int)
    ensures var (g, n) := Write(m, f, data);
            n == if m.writable && (if m.append then |f.bytes| else f.pos) + |data| < U64 then |data| else 0
    ensures var (g, ok) := Truncate(m, f, length);
            (ok <==> m.writable && length >= 0) && (ok ==> |g.bytes| == length && g.dirty) && (!ok ==> g == f)
  {
  }

  /** The signed reading of a 64-bit word: the value in range that differs by a multiple of 2^64. */
  lemma SignedWord(x: nat)
    requires x < U64
    ensures -0x8000_0000_0000_0000 <= ToI64(x) < 0x8000_0000_0000_0000
    ensures ToI64(x) == x || ToI64(x) + 0x1_0000_0000_0000_0000 == x
  {
  }
}
