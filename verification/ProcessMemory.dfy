/**
 The process context's memory fields, updated in place by the brk, mmap, munmap and mprotect
 calls. Each method does what the function of the same name in module ProcessModel says.
 */
module ProcessMemory {
  import opened Wrappers
  import opened ProcessModel

  class Context {
    var records: seq<Rec>
    var brkBase: nat
    var brkCurrent: nat
    var mappedEnd: nat
    var mapNext: nat
    var pages: map<nat, Frame>
    var held: map<nat, nat>

    ghost function View(): State
      reads this
    {
      State(records, brkBase, brkCurrent, mappedEnd, mapNext, pages, held)
    }

    constructor ()
      ensures View() == Initial()
    {
      records, brkBase, brkCurrent, mappedEnd, mapNext := [], HEAP_BASE, HEAP_BASE, HEAP_BASE, MMAP_BASE;
      pages, held := map[], map[];
    }

    // ------------------------------------------------------------------ pages

    method MapContiguous(first: nat, n: nat, phys: nat, flags: nat)
      modifies this`pages
      ensures pages == MapRange(old(pages), first, n, phys, flags)
    {
      var i: nat := 0;
      while i < n
        invariant i <= n && pages == MapRange(old(pages), first, i, phys, flags)
      {
        pages := pages[first + i := Frame(phys + i * 4096, flags)];
        i := i + 1;
      }
    }

    method UnmapPages(first: nat, n: nat)
      modifies this`pages
      ensures pages == UnmapRange(old(pages), first, n)
    {
      var i: nat := 0;
      while i < n
        invariant i <= n && pages == UnmapRange(old(pages), first, i)
      {
        pages := pages - {first + i};
        i := i + 1;
      }
    }

    method AllocateUserPages(virt: nat, bytes: nat, flags: nat, grant: Grant) returns (phys: Option<nat>)
      modifies this`pages, this`held
      ensures (View(), phys) == ProcessModel.AllocateUserPages(old(View()), virt, bytes, flags, grant)
    {
      if grant.NoFrames? || PageCount(bytes) == 0 { return None; }
      var n := bytes / 4096;
      if grant.mapped < n {
        MapContiguous(virt / 4096, grant.mapped, grant.phys, flags);
        return None;
      }
      MapContiguous(virt / 4096, n, grant.phys, flags);
      held := held[grant.phys := PageCount(bytes) * 4096];
      return Some(grant.phys);
    }

    method UnmapAndFree(virt: nat, bytes: nat, phys: nat)
      modifies this`pages, this`held
      ensures View() == ProcessModel.UnmapAndFree(old(View()), virt, bytes, phys)
    {
      UnmapPages(virt / 4096, bytes / 4096);
      held := held - {phys};
    }

    // -------------------------------------------------------------------- brk

    method FindTop() returns (i: nat)
      ensures i == ProcessModel.FindTop(View(), 0)
    {
      i := 0;
      while i < |records|
        invariant i <= |records| && ProcessModel.FindTop(View(), 0) == ProcessModel.FindTop(View(), i)
      {
        var r := records[i];
        if r.raw != r.user && r.fromPhys && r.user >= brkBase && r.user + r.size == mappedEnd { return; }
        i := i + 1;
      }
    }

    method ShrinkTop(i: nat, desired: nat)
      requires i < |records| && desired < mappedEnd && IsTop(View(), records[i])
      modifies this`records, this`mappedEnd, this`pages, this`held
      ensures View() == ProcessModel.ShrinkTop(old(View()), i, desired)
    {
      var r := records[i];
      if desired <= r.user {
        records := records[..i] + records[i + 1..];
        UnmapAndFree(r.user, r.size, r.raw);
        mappedEnd := r.user;
      } else {
        var cut := mappedEnd - desired;
        var keep := r.size - cut;
        UnmapAndFree(r.user + keep, cut, r.raw + keep);
        records := records[i := r.(size := keep)];
        mappedEnd := desired;
      }
    }

    method Shrink(desired: nat) returns (ok: bool)
      modifies this`records, this`mappedEnd, this`pages, this`held
      ensures (View(), ok) == ProcessModel.Shrink(old(View()), desired)
    {
      while mappedEnd > desired
        invariant ProcessModel.Shrink(View(), desired) == ProcessModel.Shrink(old(View()), desired)
        decreases mappedEnd, |records|
      {
        var i := FindTop();
        if i == |records| { return false; }
        ShrinkTop(i, desired);
      }
      return true;
    }

    method AdjustBrk(requested: nat, grant: Grant) returns (answer: Answer)
      modifies this`records, this`mappedEnd, this`brkCurrent, this`pages, this`held
      ensures (View(), answer) == Brk(old(View()), requested, grant)
    {
      hide MapRange, UnmapRange, PageCount;
      if requested == 0 { return Break(brkCurrent); }
      if requested < brkBase || requested >= MMAP_BASE { return Invalid; }
      var desired := PageUp(requested);
      if desired > mappedEnd {
        var bytes := desired - mappedEnd;
        var phys := AllocateUserPages(mappedEnd, bytes, WRITABLE_USER, grant);
        if phys.None? { return NoMemory; }
        if !grant.tracked {
          UnmapAndFree(mappedEnd, bytes, phys.value);
          return NoMemory;
        }
        records := [Rec(mappedEnd, phys.value, bytes, true)] + records;
        mappedEnd := desired;
      } else {
        var ok := Shrink(desired);
        if !ok { return Invalid; }
      }
      brkCurrent := requested;
      return Break(requested);
    }

    // ------------------------------------------------------------ mmap, munmap

    method UserRangeIsUnmapped(first: nat, n: nat) returns (free: bool)
      ensures free == RangeUnmapped(pages, first, n)
    {
      var i: nat := 0;
      while i < n
        invariant i <= n && RangeUnmapped(pages, first, i)
      {
        if first + i in pages { return false; }
        i := i + 1;
      }
      return true;
    }

    method FindMappingBase(start: nat, bytes: nat) returns (base: Option<nat>)
      requires start % 4096 == 0 && bytes % 4096 == 0
      ensures base == FindBase(pages, start, bytes)
    {
      hide RangeUnmapped;
      var at := start;
      while bytes > 0 && at + bytes <= MAP_LIMIT
        invariant at % 4096 == 0 && FindBase(pages, at, bytes) == FindBase(pages, start, bytes)
        decreases if at <= MAP_LIMIT then MAP_LIMIT - at + 1 else 0
      {
        var free := UserRangeIsUnmapped(at / 4096, bytes / 4096);
        if free { return Some(at); }
        at := at + 4096;
      }
      return None;
    }

    method Mmap(length: nat, flags: nat, grant: Grant) returns (at: Option<nat>)
      modifies this`records, this`mapNext, this`pages, this`held
      ensures (View(), at) == ProcessModel.Mmap(old(View()), length, flags, grant)
    {
      var bytes := PageUp(length);
      if length == 0 || bytes == 0 { return None; }
      var next := PageUp(mapNext);
      at := FindMappingBase(if next < MMAP_BASE then MMAP_BASE else next, bytes);
      if at.None? { return; }
      var base := at.value;
      var phys := AllocateUserPages(base, bytes, flags, grant);
      if phys.None? { return None; }
      mapNext := base + bytes;
      if !grant.tracked {
        UnmapAndFree(base, bytes, phys.value);
        return None;
      }
      records := [Rec(base, phys.value, bytes, true)] + records;
    }

    method Munmap(virt: nat, length: nat) returns (ok: bool)
      modifies this`records, this`pages, this`held
      ensures (View(), ok) == ProcessModel.Munmap(old(View()), virt, length)
    {
      if length == 0 { return false; }
      var bytes := PageUp(length);
      var i: nat := 0;
      while i < |records| && !IsMapping(records[i], virt, bytes)
        invariant i <= |records| && FindMapping(records, virt, bytes, 0) == FindMapping(records, virt, bytes, i)
      {
        i := i + 1;
      }
      if i == |records| { return false; }
      var r := records[i];
      records := records[..i] + records[i + 1..];
      UnmapAndFree(virt, r.size, r.raw);
      return true;
    }

    // --------------------------------------------------------------- mprotect

    method Protect(virt: nat, size: nat, flags: nat) returns (ok: bool)
      modifies this`pages
      ensures (View(), ok) == ProcessModel.Protect(old(View()), virt, size, flags)
    {
      if size == 0 { return false; }
      var first, n := virt / 4096, PageUp(virt % 4096 + size) / 4096;
      var i: nat := 0;
      while i < n
        invariant i <= n && ProtectPages(pages, first + i, n - i, flags) == ProtectPages(old(pages), first, n, flags)
      {
        if first + i !in pages { return false; }
        pages := pages[first + i := Frame(pages[first + i].phys / 4096 * 4096, flags)];
        i := i + 1;
      }
      return true;
    }
  }
}
