/**
 The kernel's buffered streams: an owned buffer with a size and a capacity, updated in place.
 View() is the byte sequence with a position of module StreamModel. Without `reliable` the kernel
 heap may refuse to allocate.
 */
module Streams {
  import opened Machine
  import opened Bytes
  import opened Wrappers
  import opened StreamModel

  const FIRST_CAPACITY: nat := 256

  /** The capacity loop: doubling in 64-bit arithmetic, and the exact size when doubling wraps. */
  method NewCapacity(capacity: nat, required: nat) returns (c: nat)
    requires capacity < required < U64
    ensures required <= c < U64
    ensures c < 2 * required || c == FIRST_CAPACITY
  {
    c := if capacity > 0 then capacity else FIRST_CAPACITY;
    while c < required
      invariant 0 < c < U64 && (c < 2 * required || c == FIRST_CAPACITY)
      decreases required - c
    {
      var next := c * 2 % U64;
      if next <= c {
        c := required;
        break;
      }
      c := next;
    }
  }

  class Stream {
    const mode: Mode
    const reliable: bool
    var buffer: array?<Byte>
    var size: nat
    var capacity: nat
    var position: nat
    var dirty: bool
    var eof: bool
    var error: bool

    ghost predicate Valid()
      reads this
    {
      && size <= capacity < U64 && position < U64
      && (capacity > 0 ==> buffer != null) && (buffer != null ==> buffer.Length == capacity)
    }

    ghost function Bytes(): (b: seq<Byte>)
      requires Valid()
      reads this, buffer
      ensures |b| == size
    {
      if buffer == null then [] else buffer[..size]
    }

    ghost function View(): File
      requires Valid()
      reads this, buffer
    {
      File(Bytes(), position, dirty)
    }

    /** A writable open that found `stored`, or nothing. */
    constructor (stored: Option<seq<Byte>>, mode: Mode, truncate: bool, reliable: bool)
      requires stored.Some? ==> |stored.value| < U64
      ensures Valid() && this.mode == mode && this.reliable == reliable && (buffer != null ==> fresh(buffer))
      ensures View() == Opened(stored, truncate, mode.append)
    {
      var bytes := if stored.None? || truncate then [] else stored.value;
      var b := new Byte[|bytes|](i requires 0 <= i < |bytes| => bytes[i]);
      this.mode, this.reliable := mode, reliable;
      buffer, size, capacity := b, |bytes|, |bytes|;
      position := if mode.append then |bytes| else 0;
      dirty, eof, error := false, false, false;
      new;
      assert b[..] == bytes;
    }

    method EnsureCapacity(required: nat) returns (ok: bool)
      requires Valid() && required < U64
      modifies this`buffer, this`capacity
      ensures Valid() && View() == old(View()) && (reliable ==> ok)
      ensures ok ==> required <= capacity
      ensures buffer == old(buffer) || (buffer != null && fresh(buffer))
    {
      if required <= capacity { return true; }
      var works: bool := *;
      if !reliable && !works { return false; }
      var c := NewCapacity(capacity, required);
      var b := new Byte[c](_ => 0);
      if size > 0 {
        forall i | 0 <= i < size { b[i] := buffer[i]; }
      }
      assert b[..size] == Bytes();
      buffer, capacity := b, c;
      return true;
    }

    /** memory::set over [size, upTo). */
    method ZeroTail(upTo: nat)
      requires Valid() && size <= upTo <= capacity
      modifies buffer
      ensures Valid() && (buffer != null ==> buffer[..upTo] == old(Bytes()) + Zeros(upTo - size))
      ensures buffer == null ==> upTo == 0
    {
      if buffer != null {
        ghost var before := Bytes();
        forall i | size <= i < upTo { buffer[i] := 0; }
        assert buffer[..upTo] == before + Zeros(upTo - size);
      }
    }

    method Read(n: nat) returns (out: seq<Byte>)
      requires Valid()
      modifies this`position, this`eof
      ensures Valid() && (View(), out) == StreamModel.Read(mode, old(View()), n)
    {
      if !mode.readable { return []; }
      if position >= size {
        eof := true;
        return [];
      }
      var k := if size - position < n then size - position else n;
      out := buffer[position..position + k];
      assert out == Bytes()[position..position + k];
      position := position + k;
      eof := position >= size;
    }

    /** The padding step of a write beyond the end. */
    method PadToPosition() returns (ok: bool)
      requires Valid()
      modifies this`buffer, this`capacity, this`size, buffer
      ensures Valid() && (reliable ==> ok)
      ensures ok ==> View() == old(View()).(bytes := Padded(old(Bytes()), position)) && position <= size
      ensures !ok ==> View() == old(View())
      ensures buffer == old(buffer) || (buffer != null && fresh(buffer))
    {
      if position <= size { return true; }
      ok := EnsureCapacity(position);
      if ok {
        ZeroTail(position);
        size := position;
      }
    }

    /** The copy step of a write: make room, copy, move on. */
    method Store(data: seq<Byte>) returns (ok: bool)
      requires Valid() && position <= size && position + |data| < U64
      modifies this`buffer, this`capacity, this`size, this`position, this`dirty, this`eof, buffer
      ensures Valid() && (reliable ==> ok)
      ensures ok ==> View() == File(Overlay(old(Bytes()), old(position), data), old(position) + |data|, true)
      ensures !ok ==> View() == old(View())
      ensures buffer == old(buffer) || (buffer != null && fresh(buffer))
    {
      hide Overlay;
      var end := position + |data|;
      ok := EnsureCapacity(end);
      if !ok { return; }
      CopyIn(data);
      position := end;
      if position > size { size := position; }
      dirty := true;
      eof := position >= size;
    }

    /** A write at the position: pad, then store, unless the end passes 64 bits. */
    method WriteHere(data: seq<Byte>) returns (ok: bool)
      requires Valid() && |data| < U64
      modifies this`buffer, this`capacity, this`size, this`position, this`dirty, this`eof, buffer
      ensures Valid() && (reliable ==> ok == (old(position) + |data| < U64))
      ensures ok ==> old(position) + |data| < U64
                     && View() == File(Overlay(Padded(old(Bytes()), old(position)), old(position), data),
                                       old(position) + |data|, true)
      ensures !ok ==> View() == old(View()) || View() == old(View()).(bytes := Padded(old(Bytes()), old(position)))
      ensures !ok && reliable ==> View() == old(View()).(bytes := Padded(old(Bytes()), old(position)))
      ensures buffer == old(buffer) || (buffer != null && fresh(buffer))
    {
      hide Overlay, Padded;
      ok := PadToPosition();
      if !ok { return; }
      if position + |data| >= U64 { return false; }
      ok := Store(data);
    }

    method Write(data: seq<Byte>) returns (n: nat)
      requires Valid() && |data| < U64
      modifies this`buffer, this`capacity, this`size, this`position, this`dirty, this`eof, this`error, buffer
      ensures Valid()
      ensures reliable || n > 0 ==> (View(), n) == StreamModel.Write(mode, old(View()), data)
      ensures n == 0 && mode.writable && View() != StreamModel.Write(mode, old(View()), data).0 ==>
                var at := WriteStart(mode, old(View()));
                View() == old(View()).(pos := at) || View() == File(Padded(old(Bytes()), at), at, old(dirty))
      ensures buffer == old(buffer) || (buffer != null && fresh(buffer))
    {
      hide Overlay, Padded;
      if !mode.writable { return 0; }
      if mode.append { position := size; }
      var ok := WriteHere(data);
      if !ok {
        error := true;
        return 0;
      }
      return |data|;
    }

    /** memory::copy of the data to the position. */
    method CopyIn(data: seq<Byte>)
      requires Valid() && position <= size && position + |data| <= capacity
      modifies buffer
      ensures Valid()
      ensures buffer == null ==> Overlay(old(Bytes()), position, data) == []
      ensures buffer != null ==> var end := if position + |data| > size then position + |data| else size;
                                 buffer[..end] == Overlay(old(Bytes()), position, data)
    {
      assert buffer == null ==> data == [] && Bytes() == [];
      if buffer != null {
        ghost var before := Bytes();
        forall i | 0 <= i < |data| { buffer[position + i] := data[i]; }
        var end := if position + |data| > size then position + |data| else size;
        assert buffer[..end] == Overlay(before, position, data);
      }
    }

    /** Signed overflow of the sum is undefined in the original. */
    method Seek(offset: int, whence: int) returns (ok: bool)
      requires Valid() && (SeekBase(View(), whence).Some? ==> SeekBase(View(), whence).value + offset < I64_LIMIT)
      modifies this`position, this`eof, this`error
      ensures Valid() && (View(), ok) == StreamModel.Seek(old(View()), offset, whence)
    {
      var base := 0;
      if whence == 1 { base := ToI64(position); }
      else if whence == 2 { base := ToI64(size); }
      else if whence != 0 {
        error := true;
        return false;
      }
      if base + offset < 0 {
        error := true;
        return false;
      }
      position := base + offset;
      eof := position >= size;
      return true;
    }

    method Truncate(length: int) returns (ok: bool)
      requires Valid() && length < I64_LIMIT
      modifies this`buffer, this`capacity, this`size, this`position, this`dirty, this`eof, this`error, buffer
      ensures Valid()
      ensures ok || reliable ==> (View(), ok) == StreamModel.Truncate(mode, old(View()), length)
      ensures !ok ==> View() == old(View())
      ensures buffer == old(buffer) || (buffer != null && fresh(buffer))
    {
      if !mode.writable || length < 0 { return false; }
      if length > size {
        ok := EnsureCapacity(length);
        if !ok {
          error := true;
          return;
        }
        ZeroTail(length);
      }
      ghost var before := old(Bytes());
      assert buffer != null ==> buffer[..length] == Padded(before, length)[..length];
      size := length;
      if position > size { position := size; }
      dirty := true;
      eof := position >= size;
      return true;
    }

    /** What close_stream leaves in the backend; `accepts` is the driver's answer to write_file. */
    method Close(stored: Option<seq<Byte>>, accepts: bool) returns (ok: bool, after: Option<seq<Byte>>)
      requires Valid()
      modifies this`error
      ensures Valid() && View() == old(View()) && ok == (!dirty || accepts)
      ensures after == if ok then Closed(stored, View()) else stored
    {
      if dirty {
        if !accepts {
          error := true;
          return false, stored;
        }
        var bytes := if buffer == null || size == 0 then [] else buffer[..size];
        return true, Some(bytes);
      }
      return true, stored;
    }
  }
}
