/** The physical allocator object: the loops of src/core/memory.cpp over the region list. */
module PhysAllocator {
  import opened Machine
  import opened Alignment
  import opened Regions
  import opened PhysMemory
  import opened PhysMemoryProofs

  class Allocator {
    var regions: seq<Region>
    var totalPages: nat
    var usedPages: nat
    var freePages: nat
    ghost var boot: seq<Region>

    ghost function View(): Phys
      reads this
    {
      Phys(regions, totalPages, usedPages, freePages)
    }

    ghost predicate Valid()
      reads this
    {
      Inv(View(), boot)
    }

    /** phys_allocator::init */
    constructor (entries: seq<MapEntry>)
      requires SaneMap(entries)
      ensures Valid() && View() == Load(NO_MEMORY, entries) && boot == regions
    {
      hide Wrap, Covered, Sound;
      var rs: seq<Region>, total: nat, free: nat := [], 0, 0;
      InitEstablishes(entries);
      var i := 0;
      while i < |entries|
        invariant 0 <= i <= |entries|
        invariant Load(NO_MEMORY, entries) == Load(Phys(rs, total, 0, free), entries[i..])
      {
        var e := entries[i];
        assert entries[i..][1..] == entries[i + 1..];
        total := Wrap(total + e.pages);
        if IsFreeType(e.kind) && e.pages != 0 {
          if |rs| >= POOL { break; }
          var size := e.pages * PAGE;
          if e.start != 0 {
            rs := rs + [Region(e.start, size, false)];
            free := Wrap(free + e.pages);
          } else if size > PAGE {
            rs := rs + [Region(PAGE, size - PAGE, false)];
            free := Wrap(free + e.pages);
          }
        }
        i := i + 1;
      }
      regions, totalPages, usedPages, freePages, boot := rs, total, 0, free, rs;
    }

    /** Split region k, whose aligned start is a, and hand the request out. */
    method TakeAt(k: nat, a: nat, pages: nat)
      requires k < |regions| && pages > 0 && regions[k].start <= a && a + pages * PAGE <= regions[k].End()
      modifies this
      ensures boot == old(boot)
      ensures View() == old(View()).(
        regions := Splice(old(regions), k, k + 1, Carve(old(regions[k]), a, Bytes(pages), Spare(old(regions)))),
        usedPages := Wrap(old(usedPages) + pages), freePages := Wrap(old(freePages) - pages))
    {
      var r, req, spare := regions[k], pages * PAGE, POOL - |regions|;
      var pre, post := a - r.start, r.start + r.size - (a + req);
      var mid;
      if pre == 0 {
        mid := [r.(used := true)];
        if post > 0 && spare > 0 { mid := [Region(a, req, true), Region(a + req, post, false)]; }
      } else {
        mid := [Region(r.start, pre, false), Region(a, req, true)];
        if post > 0 && spare > 1 { mid := mid + [Region(a + req, post, false)]; }
      }
      assert mid == Carve(r, a, req, spare);
      regions := regions[..k] + mid + regions[k + 1..];
      usedPages, freePages := Wrap(usedPages + pages), Wrap(freePages - pages);
    }

    /** phys_allocator::allocate_pages */
    method AllocatePages(pages: nat, alignment: nat, ceiling: nat) returns (addr: nat)
      requires Valid() && PowerOfTwo(alignment)
      modifies this
      ensures Valid() && boot == old(boot)
      ensures (View(), addr) == Alloc(old(View()), pages, alignment, ceiling)
      ensures addr != 0 ==> Divides(alignment, addr) && (ceiling != 0 ==> addr + pages * PAGE <= ceiling)
    {
      AllocKeepsInv(View(), pages, alignment, ceiling, boot);
      AllocResult(View(), pages, alignment, ceiling, boot);
      addr := FirstFitAllocate(pages, alignment, ceiling);
    }

    method FirstFitAllocate(pages: nat, alignment: nat, ceiling: nat) returns (addr: nat)
      requires alignment > 0
      modifies this
      ensures boot == old(boot)
      ensures (View(), addr) == Alloc(old(View()), pages, alignment, ceiling)
    {
      if pages == 0 { return 0; }
      var req := pages * PAGE;
      var k := 0;
      while k < |regions|
        invariant 0 <= k <= |regions|
        invariant FirstFit(regions, 0, req, alignment, ceiling) == FirstFit(regions, k, req, alignment, ceiling)
        invariant View() == old(View()) && boot == old(boot)
      {
        var r := regions[k];
        if !r.used {
          var a := AlignUp(r.start, alignment);
          if a + req <= r.start + r.size && (ceiling == 0 || a + req <= ceiling) {
            if a == r.start || POOL - |regions| > 0 {
              TakeAt(k, a, pages);
              return a;
            }
          }
        }
        k := k + 1;
      }
      return 0;
    }

    /** Mark region k free and merge it with the free neighbours it touches. */
    method ReleaseAt(k: nat)
      requires k < |regions|
      modifies this`regions
      ensures regions == Release(old(regions), k)
    {
      var r := regions[k];
      var lo, hi, merged := k, k + 1, r.(used := false);
      if k + 1 < |regions| && !regions[k + 1].used && r.start + r.size == regions[k + 1].start {
        merged, hi := merged.(size := merged.size + regions[k + 1].size), k + 2;
      }
      if k > 0 && !regions[k - 1].used && regions[k - 1].start + regions[k - 1].size == r.start {
        merged, lo := regions[k - 1].(size := regions[k - 1].size + merged.size), k - 1;
      }
      regions := regions[..lo] + [merged] + regions[hi..];
    }

    /** phys_allocator::free_pages */
    method FreePages(addr: nat, pages: nat)
      requires Valid()
      modifies this
      ensures Valid() && boot == old(boot) && View() == Free(old(View()), addr, pages)
    {
      FreeKeepsInv(View(), addr, pages, boot);
      FindAndRelease(addr, pages);
    }

    method FindAndRelease(addr: nat, pages: nat)
      modifies this
      ensures boot == old(boot) && View() == Free(old(View()), addr, pages)
    {
      if addr == 0 || pages == 0 { return; }
      var k := 0;
      while k < |regions|
        invariant 0 <= k <= |regions|
        invariant FindUsed(regions, 0, addr) == FindUsed(regions, k, addr)
        invariant View() == old(View()) && boot == old(boot)
      {
        if regions[k].start == addr && regions[k].used {
          usedPages, freePages := Wrap(usedPages - pages), Wrap(freePages + pages);
          ReleaseAt(k);
          return;
        }
        k := k + 1;
      }
    }
  }
}
