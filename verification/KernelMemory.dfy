/** Page tables, heap window and surfaces over one frame allocator: no frame ever has
    two owners, whichever of the three asks or gives back. */
module KernelMemory {
  import opened Wrappers
  import opened FrameAllocator
  import opened PageTables
  import opened HeapPages
  import opened SharedSurfaces

  /** No active surface owns one of these frames. */
  ghost predicate Separate(ss: seq<Surface>, frames: set<int>) {
    forall i :: Live(ss, i) ==> Frames(ss[i]) !! frames
  }

  class KernelMemory {
    const window: HeapWindow
    const table: SurfaceTable

    /** Frames of directories, of page tables, and behind the heap. */
    ghost function Kept(): set<int>
      reads window`backing, window.vm`dirs, window.vm`tables
    {
      (set f | f in window.vm.dirs) + (set f | f in window.vm.tables) + (set f | f in window.backing)
    }

    /** Every frame is free, or owned by exactly one directory, page table, heap page or
        active surface, or was never given out. */
    ghost predicate Valid()
      reads window, window.vm, window.vm.pmm, window.vm.pmm.bitmap, window.vm.ram, table, table.pmm, table.surfaces
    {
      && table.pmm == window.vm.pmm
      && window.Valid() && table.Valid()
      && Separate(table.surfaces[..], Kept())
    }

    /** A frame of an active surface is nobody else's. */
    lemma OneOwner(f: nat, i: nat)
      requires Valid() && Live(table.surfaces[..], i) && f in Frames(table.surfaces[i])
      ensures f !in window.vm.pmm.free && f !in window.vm.dirs && f !in window.vm.tables && f !in window.backing
      ensures forall j :: Live(table.surfaces[..], j) && j != i ==> f !in Frames(table.surfaces[j])
    {
      var ss := table.surfaces[..];
      assert Frames(ss[i]) !! Kept() && Frames(ss[i]) !! window.vm.pmm.free;
    }

    constructor (window: HeapWindow)
      requires window.Valid()
      ensures this.window == window && fresh(table) && fresh(table.surfaces) && Valid()
    {
      this.window := window;
      table := new SurfaceTable(window.vm.pmm);
    }

    method CreateSurface(pid: nat, w: nat, h: nat) returns (r: Creation)
      requires Valid() && pid < UINT32_RANGE && w < UINT32_RANGE && h < UINT32_RANGE
      modifies table, table.surfaces, table.pmm`freeFrames, table.pmm`free, table.pmm.bitmap
      ensures !r.Panic? ==> Valid()
      ensures r.NoSlot? <==> forall i :: 0 <= i < MAX_SURFACES ==> Live(old(table.surfaces[..]), i)
      ensures r.Panic? ==> PagesFor(w, h) == 0 || !exists s :: RunAt(old(table.pmm.free), s, PagesFor(w, h))
      ensures r.Created? ==> table.FillsSlot(old(table.surfaces[..]), old(table.pmm.free), old(table.nextId), r.slot, pid, w, h)
    {
      r := table.Create(pid, w, h);
    }

    method DestroySurface(id: nat) returns (ghost slot: Option<nat>)
      requires Valid()
      modifies table.surfaces, table.pmm`freeFrames, table.pmm`free, table.pmm.bitmap
      ensures Valid()
      ensures slot.None? <==> forall i :: Live(old(table.surfaces[..]), i) ==> old(table.surfaces[..])[i].id != id
      ensures slot.Some? ==>
                && Live(old(table.surfaces[..]), slot.value) && old(table.surfaces[slot.value]).id == id
                && table.surfaces[..] == old(table.surfaces[..])[slot.value := old(table.surfaces[slot.value]).(active := false)]
    {
      hide HeapWindow.PagesAreBacked, AddressSpaces.Structured, FrameBitmap.Valid, Owning, Numbered, Frames;
      slot := table.Destroy(id);
    }

    /** Mapping anything below the heap window; the window is the heap's own. */
    method MapPage(pd: nat, vaddr: uint32, paddr: uint32, flags: uint32) returns (r: Grant)
      requires Valid() && pd in window.vm.dirs && flags < 4096 && vaddr < HEAP_VIRT_BASE
      modifies window.vm`tables, window.vm.pmm, window.vm.pmm.bitmap, window.vm.ram
      ensures Valid()
      ensures r.Granted? ==> window.vm.Lookup(pd, vaddr / 4096) == Some(PageEntry(paddr, flags))
      ensures !r.Granted? ==> !Present(old(window.vm.Word(pd, vaddr / 4096 / 1024)))
                              && (r.NoFrame? <==> old(window.vm.pmm.free) == {})
      ensures r.OutOfReach? ==> r.frame in old(window.vm.pmm.free) && r.frame >= window.vm.reach
    {
      r := window.vm.MapPage(pd, vaddr, paddr, flags);
    }

    method UnmapPage(pd: nat, vaddr: uint32)
      requires Valid() && pd in window.vm.dirs && vaddr < HEAP_VIRT_BASE
      modifies window.vm.ram
      ensures Valid() && window.vm.Lookup(pd, vaddr / 4096) == None
    {
      window.vm.UnmapPage(pd, vaddr);
    }

    method CreateUserPd() returns (r: Grant)
      requires Valid()
      modifies window.vm`dirs, window.vm.pmm, window.vm.pmm.bitmap, window.vm.ram
      ensures Valid() && (r.NoFrame? <==> old(window.vm.pmm.free) == {})
      ensures r.Granted? ==> window.vm.dirs == old(window.vm.dirs) + {r.frame} && r.frame in old(window.vm.pmm.free)
      ensures r.OutOfReach? ==> r.frame in old(window.vm.pmm.free) && r.frame >= window.vm.reach
    {
      r := window.vm.CreateUserPd();
    }

    method GrowHeap(n: nat) returns (r: Pages)
      requires Valid()
      modifies window, window.vm`tables, window.vm.pmm, window.vm.pmm.bitmap, window.vm.ram
      ensures r.Pages? ==> Valid() && r.base == old(window.cursor) && window.cursor == r.base + 4096 * n
                           && Grew(window.Stock(), old(window.Stock()), n)
      ensures r.NoPages? ==> Refuses(old(window.Stock()), r.why, n)
    {
      ghost var before := Kept();
      r := window.AllocPages(n);
      if r.Pages? {
        assert forall f :: f in Kept() ==> f in before || f in old(table.pmm.free);
        hide HeapWindow.Valid, AddressSpaces.Valid, FrameBitmap.Valid;
      }
    }
  }
}
