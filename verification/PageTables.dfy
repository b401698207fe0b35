/** The virtual memory manager: two-level 32-bit x86 page tables kept in physical
    frames. Physical memory is an array of frames of 1024 words; directories and
    page tables are rows of it, reached through the kernel's direct map. */
module PageTables {
  import opened Wrappers
  import opened FrameAllocator

  type uint32 = x: int | 0 <= x < 0x1_0000_0000

  const ENTRIES: nat := 1024
  const KERNEL_FIRST_ENTRY: nat := 768  // directory entries 768.. map 0xC0000000 and up
  const DIRECT_MAP_FRAMES: nat := 0x4_0000  // 1 GB: where `phys + 0xC0000000` wraps

  // ---------------------------------------------------------------------
  // Entry words. Masks of aligned fields are written as arithmetic; the next
  // lemma justifies it on 32-bit words.
  // ---------------------------------------------------------------------

  lemma MasksAreArithmetic(x: bv32, y: bv32)
    ensures x & 0xFFF == x % 0x1000
    ensures x >> 12 == x / 0x1000
    ensures x & 0xFFFF_F000 == x - (x & 0xFFF)
    ensures y < 0x1000 ==> (x & 0xFFFF_F000) | y == (x & 0xFFFF_F000) + y
  {
  }

  predicate Present(e: uint32) {
    e % 2 == 1
  }

  function EntryFrame(e: uint32): (f: nat)
    ensures f < FRAMES_TOTAL
  {
    e / 4096
  }

  predicate UserBit(e: uint32) {
    e / 4 % 2 == 1
  }

  predicate WritableBit(e: uint32) {
    e / 2 % 2 == 1
  }

  /** `pt_phys | PRESENT | WRITABLE | (flags & USER)` for the table in frame f. */
  function DirectoryEntry(f: nat, flags: uint32): uint32
    requires f < FRAMES_TOTAL
  {
    f * 4096 + 3 + if UserBit(flags) then 4 else 0
  }

  /** `(paddr & ~0xFFF) | PRESENT | flags`. */
  function PageEntry(paddr: uint32, flags: uint32): uint32
    requires flags < 4096
  {
    paddr - paddr % 4096 + if Present(flags) then flags else flags + 1
  }

  lemma DirectoryEntryFields(f: nat, flags: uint32)
    requires f < FRAMES_TOTAL
    ensures Present(DirectoryEntry(f, flags)) && EntryFrame(DirectoryEntry(f, flags)) == f
    ensures UserBit(DirectoryEntry(f, flags)) <==> UserBit(flags)
    ensures WritableBit(DirectoryEntry(f, flags)) && DirectoryEntry(f, flags) % 4096 < 8
  {
    var low := 3 + if UserBit(flags) then 4 else 0;
    FrameField(DirectoryEntry(f, flags), f, low);
    FlagFields(DirectoryEntry(f, flags), f, low);
  }

  lemma PageEntryFields(paddr: uint32, flags: uint32)
    requires flags < 4096
    ensures Present(PageEntry(paddr, flags)) && EntryFrame(PageEntry(paddr, flags)) == paddr / 4096
    ensures UserBit(PageEntry(paddr, flags)) <==> UserBit(flags)
    ensures WritableBit(PageEntry(paddr, flags)) <==> WritableBit(flags)
    ensures PageEntry(paddr, flags) % 4096 / 2 == flags / 2
  {
    var low := if Present(flags) then flags else flags + 1;
    var e := PageEntry(paddr, flags);
    assert e == 4096 * (paddr / 4096) + low;
    FrameField(e, paddr / 4096, low);
    FlagFields(e, paddr / 4096, low);
    PresentKeepsUser(flags);
  }

  lemma FrameField(e: int, q: int, low: int)
    requires e == 4096 * q + low && 0 <= low < 4096
    ensures e / 4096 == q && e % 4096 == low
  {
  }

  lemma FlagFields(e: int, q: int, low: int)
    requires e == 4096 * q + low && 0 <= low < 4096
    ensures e % 2 == low % 2 && e / 2 % 2 == low / 2 % 2 && e / 4 % 2 == low / 4 % 2
  {
    assert e == 4 * (1024 * q + low / 4) + low % 4;
    QuarterIs(e, 1024 * q + low / 4, low % 4);
    HalfIs(e, 2048 * q + low / 2, low % 2);
    ParityOfSum(1024 * q, low / 2);
    ParityOfSum(512 * q, low / 4);
    ParityOfSum(2048 * q, low);
  }

  lemma ParityOfSum(h: int, x: int)
    ensures (2 * h + x) % 2 == x % 2
  {
  }

  lemma PresentKeepsUser(flags: nat)
    ensures flags % 2 == 0 ==>
              (flags + 1) / 4 == flags / 4 && (flags + 1) / 2 == flags / 2 && (flags + 1) % 2 == 1
  {
    var k, r := flags / 4, flags % 4;
    ParityOfSum(2 * k, r);
    if r == 0 || r == 2 {
      QuarterIs(flags + 1, k, r + 1);
    }
  }

  lemma HalfIs(x: int, h: int, r: int)
    requires x == 2 * h + r && 0 <= r < 2
    ensures x / 2 == h
  {
  }

  lemma QuarterIs(x: int, q: int, r: int)
    requires x == 4 * q + r && 0 <= r < 4
    ensures x / 4 == q
  {
  }

  /** Where a present entry sends an address: `(entry & ~0xFFF) | (vaddr & 0xFFF)`. */
  function Target(e: uint32, vaddr: uint32): uint32 {
    e - e % 4096 + vaddr % 4096
  }

  /** What is looked up after a mapping is what was mapped, whatever the flags. */
  lemma MappedTarget(paddr: uint32, flags: uint32, vaddr: uint32)
    requires flags < 4096
    ensures Target(PageEntry(paddr, flags), vaddr) == paddr - paddr % 4096 + vaddr % 4096
    ensures paddr % 4096 == vaddr % 4096 ==> Target(PageEntry(paddr, flags), vaddr) == paddr
  {
    PageEntryFields(paddr, flags);
  }

  /** Which directory slot a page table serves: one slot of one directory below
      0xC0000000, the same slot of any number of directories above it. */
  datatype Slot = Private(dir: nat, index: nat) | Shared(index: nat)

  function SlotOf(dir: nat, index: nat): Slot {
    if index < KERNEL_FIRST_ENTRY then Private(dir, index) else Shared(index)
  }

  /** A frame for a directory or a table. It is stored to through the direct map, so a
      frame the map does not reach is one the source goes on to corrupt other memory
      with; the model stops there. */
  datatype Grant = Granted(frame: nat) | NoFrame | OutOfReach(frame: nat)

  /** Frames only left the allocator, at most one, and new page tables are among those. */
  ghost predicate OnlyTakes(wasFree: set<int>, free: set<int>, wereTables: set<nat>, tables: set<nat>) {
    && free <= wasFree && |wasFree| - 1 <= |free| <= |wasFree|
    && forall f :: f in tables && f !in wereTables ==> f in wasFree && f !in free
  }

  class AddressSpaces {
    const pmm: FrameBitmap
    const ram: array2<uint32>
    const reach: nat  // frames below this one are reached through the direct map
    var kernelPd: nat
    ghost var dirs: set<nat>  // frames holding page directories
    ghost var tables: map<nat, Slot>  // frames holding page tables

    constructor (pmm: FrameBitmap, reach: nat)
      ensures this.pmm == pmm && this.reach == reach && fresh(ram)
      ensures ram.Length0 == FRAMES_TOTAL && ram.Length1 == ENTRIES
    {
      this.pmm := pmm;
      this.reach := reach;
      ram := new uint32[FRAMES_TOTAL, ENTRIES]((f, i) => 0);
      kernelPd, dirs, tables := 0, {}, map[];
    }

    function Word(f: nat, i: nat): uint32
      reads ram
      requires ram.Length0 == FRAMES_TOTAL && ram.Length1 == ENTRIES && f < FRAMES_TOTAL && i < ENTRIES
    {
      ram[f, i]
    }

    /** Frames this manager owns are taken and within reach of the direct map. */
    ghost predicate Reserved()
      reads this`dirs, this`tables, pmm, pmm.bitmap
    {
      && pmm.Valid() && reach <= DIRECT_MAP_FRAMES
      && dirs !! tables.Keys
      && (forall f :: f in dirs ==> f < reach && f !in pmm.free)
      && (forall f :: f in tables ==> f < reach && f !in pmm.free)
    }

    /** Every present directory entry is writable and points at a page table registered
        for its slot; hence tables are never shared, except the kernel half between directories. */
    ghost predicate Structured()
      reads this`dirs, this`tables, ram
    {
      && ram.Length0 == FRAMES_TOTAL && ram.Length1 == ENTRIES
      && (forall d :: d in dirs ==> d < FRAMES_TOTAL)
      && (forall d, i {:trigger Word(d, i)} ::
            d in dirs && 0 <= i < ENTRIES && Present(Word(d, i)) ==>
              && EntryFrame(Word(d, i)) in tables && tables[EntryFrame(Word(d, i))] == SlotOf(d, i)
              && WritableBit(Word(d, i)))
    }

    ghost predicate Valid()
      reads this`dirs, this`tables, pmm, pmm.bitmap, ram
    {
      Reserved() && Structured()
    }

    /** The abstract view: the page-table entry a page of a directory resolves to. */
    ghost function Lookup(d: nat, page: nat): Option<uint32>
      reads this`dirs, this`tables, ram
      requires Structured() && d in dirs && page < FRAMES_TOTAL
    {
      if !Present(Word(d, page / 1024)) then None
      else
        var e := Word(EntryFrame(Word(d, page / 1024)), page % 1024);
        if Present(e) then Some(e) else None
    }

    /** Two directories resolve slot i through the same page table. */
    ghost predicate SharesTable(d: nat, c: nat, i: nat)
      reads this`dirs, this`tables, ram
      requires Structured() && d in dirs && c in dirs && i < ENTRIES
    {
      d == c || (Present(Word(d, i)) && Present(Word(c, i)) && EntryFrame(Word(d, i)) == EntryFrame(Word(c, i)))
    }

    /** Ring 3 reaches a page only if both levels carry the user bit. */
    ghost predicate UserReachable(d: nat, page: nat)
      reads this`dirs, this`tables, ram
      requires Structured() && d in dirs && page < FRAMES_TOTAL
    {
      Lookup(d, page).Some? && UserBit(Word(d, page / 1024)) && UserBit(Lookup(d, page).value)
    }

    /** The kernel may store to a page only if both levels carry the writable bit. */
    ghost predicate Writable(d: nat, page: nat)
      reads this`dirs, this`tables, ram
      requires Structured() && d in dirs && page < FRAMES_TOTAL
    {
      Lookup(d, page).Some? && WritableBit(Word(d, page / 1024)) && WritableBit(Lookup(d, page).value)
    }

    /** Tables below 0xC0000000 belong to one directory. */
    lemma UserTablesArePrivate(d: nat, c: nat, i: nat)
      requires Valid() && d in dirs && c in dirs && i < KERNEL_FIRST_ENTRY && SharesTable(d, c, i)
      ensures d == c
    {
    }

    /** Two present slots with different numbers never use the same table. */
    lemma SlotsAreUnaliased(d: nat, c: nat, i: nat, j: nat)
      requires Valid() && d in dirs && c in dirs && i < ENTRIES && j < ENTRIES
      requires Present(Word(d, i)) && Present(Word(c, j)) && EntryFrame(Word(d, i)) == EntryFrame(Word(c, j))
      ensures i == j
    {
    }

    method ClearFrame(f: nat)
      requires ram.Length0 == FRAMES_TOTAL && ram.Length1 == ENTRIES && f < FRAMES_TOTAL
      modifies ram
      ensures forall i :: 0 <= i < ENTRIES ==> ram[f, i] == 0
      ensures forall g, i :: 0 <= g < FRAMES_TOTAL && g != f && 0 <= i < ENTRIES ==> ram[g, i] == old(ram[g, i])
    {
      for k := 0 to ENTRIES
        invariant forall i :: 0 <= i < k ==> ram[f, i] == 0
        invariant forall g, i :: 0 <= g < FRAMES_TOTAL && g != f && 0 <= i < ENTRIES ==> ram[g, i] == old(ram[g, i])
      {
        ram[f, k] := 0;
      }
    }

    /** The allocator's next frame, if the direct map reaches it. */
    method TakeFrame() returns (r: Grant)
      requires pmm.Valid()
      modifies pmm, pmm.bitmap
      ensures pmm.Valid() && (r.NoFrame? <==> old(pmm.free) == {})
      ensures r.NoFrame? ==> pmm.free == old(pmm.free) && pmm.lastAlloc == old(pmm.lastAlloc)
      ensures !r.NoFrame? ==> r.frame < FRAMES_TOTAL && r.frame in old(pmm.free)
                              && FirstFreeFrom(old(pmm.free), old(pmm.lastAlloc), r.frame)
                              && pmm.free == old(pmm.free) - {r.frame} && pmm.lastAlloc == r.frame + 1
                              && (r.OutOfReach? <==> r.frame >= reach)
    {
      var taken := pmm.AllocFrame();
      if taken.None? { return NoFrame; }
      var f := FrameOf(taken.value);
      return if f < reach then Granted(f) else OutOfReach(f);
    }

    /** The kernel's own directory, empty. */
    method Init() returns (r: Grant)
      requires pmm.Valid() && ram.Length0 == FRAMES_TOTAL && ram.Length1 == ENTRIES && reach <= DIRECT_MAP_FRAMES
      modifies this, pmm, pmm.bitmap, ram
      ensures pmm.Valid() && (r.NoFrame? <==> old(pmm.free) == {})
      ensures r.OutOfReach? ==> r.frame >= reach && FirstFreeFrom(old(pmm.free), old(pmm.lastAlloc), r.frame)
      ensures r.Granted? ==> Valid() && dirs == {kernelPd} && kernelPd == r.frame
                             && FirstFreeFrom(old(pmm.free), old(pmm.lastAlloc), r.frame)
                             && tables == map[] && pmm.free == old(pmm.free) - {kernelPd}
      ensures r.Granted? ==> forall page :: 0 <= page < FRAMES_TOTAL ==> Lookup(kernelPd, page) == None
    {
      r := TakeFrame();
      if !r.Granted? { return; }
      kernelPd := r.frame;
      dirs, tables := {kernelPd}, map[];
      ClearFrame(kernelPd);
    }

    /** The page table of slot i of directory pd, allocated and zeroed if missing.
        No page of any directory resolves differently afterwards. */
    method TableFor(pd: nat, i: nat, flags: uint32) returns (r: Grant)
      requires Valid() && pd in dirs && i < ENTRIES
      modifies this`tables, pmm, pmm.bitmap, ram
      ensures Valid()
      ensures r.NoFrame? <==> !Present(old(Word(pd, i))) && old(pmm.free) == {}
      ensures r.OutOfReach? ==> !Present(old(Word(pd, i)))
      ensures if Present(old(Word(pd, i))) || r.NoFrame?
              then pmm.free == old(pmm.free) && pmm.lastAlloc == old(pmm.lastAlloc) && tables == old(tables)
              else Took(old(pmm.free), old(pmm.lastAlloc), r)
                   && pmm.free == old(pmm.free) - {r.frame} && pmm.lastAlloc == r.frame + 1
                   && tables == if r.Granted? then old(tables)[r.frame := SlotOf(pd, i)] else old(tables)
      ensures r.Granted? ==> Present(Word(pd, i)) && EntryFrame(Word(pd, i)) == r.frame
      ensures forall d, page {:trigger Lookup(d, page)} :: d in dirs && 0 <= page < FRAMES_TOTAL ==>
                Lookup(d, page) == old(Lookup(d, page))
      ensures forall d, k {:trigger Word(d, k)} :: d in dirs && 0 <= k < ENTRIES ==>
                Word(d, k) == if d == pd && k == i && r.Granted? && !Present(old(Word(d, k)))
                              then DirectoryEntry(r.frame, flags)
                              else old(Word(d, k))
      ensures r.Granted? ==> forall d :: d in dirs ==> (SharesTable(d, pd, i) <==> old(SharesTable(d, pd, i)))
    {
      if !Present(Word(pd, i)) {
        r := TakeFrame();
        if !r.Granted? { return; }
        var pt := r.frame;
        ClearFrame(pt);
        DirectoryEntryFields(pt, flags);
        ram[pd, i] := DirectoryEntry(pt, flags);
        tables := tables[pt := SlotOf(pd, i)];
        assert pt in old(pmm.free) && pt !in dirs && pt !in old(tables);
        assert forall g, k {:trigger Word(g, k)} ::
          0 <= g < FRAMES_TOTAL && g != pt && 0 <= k < ENTRIES && (g != pd || k != i) ==>
            Word(g, k) == old(Word(g, k));
        assert forall k {:trigger Word(pt, k)} :: 0 <= k < ENTRIES ==> Word(pt, k) == 0;
        assert Word(pd, i) == DirectoryEntry(pt, flags);
        assert Valid();
        forall d, page {:trigger Lookup(d, page)} | d in dirs && 0 <= page < FRAMES_TOTAL
          ensures Lookup(d, page) == old(Lookup(d, page))
        {
          if Present(old(Word(d, page / 1024))) {
            assert old(EntryFrame(Word(d, page / 1024))) in old(tables);
          }
        }
        return;
      }
      return Granted(EntryFrame(Word(pd, i)));
    }

    /** The frame taken is the allocator's next, and it is refused exactly if the direct
        map does not reach it. */
    ghost predicate Took(free: set<int>, hint: nat, r: Grant) {
      !r.NoFrame? && FirstFreeFrom(free, hint, r.frame) && (r.OutOfReach? <==> r.frame >= reach)
    }

    /** Stores entry e for a page whose table exists. Exactly the directories that
        share that table see the change, at that page only. */
    method StoreEntry(pd: nat, page: nat, e: uint32)
      requires Valid() && pd in dirs && page < FRAMES_TOTAL && Present(Word(pd, page / 1024))
      modifies ram
      ensures Valid()
      ensures forall d, i :: d in dirs && 0 <= i < ENTRIES ==> Word(d, i) == old(Word(d, i))
      ensures forall d, q {:trigger Lookup(d, q)} :: d in dirs && 0 <= q < FRAMES_TOTAL ==>
                Lookup(d, q) == if q == page && old(SharesTable(d, pd, page / 1024))
                                then (if Present(e) then Some(e) else None)
                                else old(Lookup(d, q))
    {
      var pt := EntryFrame(Word(pd, page / 1024));
      ram[pt, page % 1024] := e;
      assert pt in tables && pt !in dirs;
      assert forall g, k {:trigger Word(g, k)} ::
        0 <= g < FRAMES_TOTAL && 0 <= k < ENTRIES && (g != pt || k != page % 1024) ==>
          Word(g, k) == old(Word(g, k));
      assert Word(pt, page % 1024) == e;
      assert Valid();
      forall d, q {:trigger Lookup(d, q)} | d in dirs && 0 <= q < FRAMES_TOTAL
        ensures Lookup(d, q) == if q == page && old(SharesTable(d, pd, page / 1024))
                                then (if Present(e) then Some(e) else None)
                                else old(Lookup(d, q))
      {
        if Present(old(Word(d, q / 1024))) && old(EntryFrame(Word(d, q / 1024))) == pt {
          assert q / 1024 == page / 1024;
        }
      }
    }

    /** Maps one page. Without a frame for a missing table, or without one in reach,
        no translation has changed.
        The new translation is seen by `pd` and by the directories that already shared
        the page's table with it, every other translation is as before. */
    method MapPage(pd: nat, vaddr: uint32, paddr: uint32, flags: uint32) returns (r: Grant)
      requires Valid() && pd in dirs && flags < 4096
      modifies this`tables, pmm, pmm.bitmap, ram
      ensures Valid()
      ensures r.NoFrame? <==> !Present(old(Word(pd, vaddr / 4096 / 1024))) && old(pmm.free) == {}
      ensures !Present(old(Word(pd, vaddr / 4096 / 1024))) && !r.NoFrame? ==>
                Took(old(pmm.free), old(pmm.lastAlloc), r)
      ensures r.OutOfReach? ==> !Present(old(Word(pd, vaddr / 4096 / 1024)))
      ensures if Present(old(Word(pd, vaddr / 4096 / 1024))) || r.NoFrame?
              then pmm.free == old(pmm.free) && pmm.lastAlloc == old(pmm.lastAlloc)
              else pmm.free == old(pmm.free) - {r.frame} && pmm.lastAlloc == r.frame + 1
      ensures OnlyTakes(old(pmm.free), pmm.free, old(tables.Keys), tables.Keys)
      ensures r.Granted? ==> Present(Word(pd, vaddr / 4096 / 1024))
      ensures forall d, k {:trigger Word(d, k)} :: d in dirs && 0 <= k < ENTRIES ==>
                Word(d, k) == if d == pd && k == vaddr / 4096 / 1024 && r.Granted? && !Present(old(Word(d, k)))
                              then DirectoryEntry(r.frame, flags)
                              else old(Word(d, k))
      ensures forall d, page {:trigger Lookup(d, page)} :: d in dirs && 0 <= page < FRAMES_TOTAL ==>
                Lookup(d, page) == if r.Granted? && page == vaddr / 4096 && old(SharesTable(d, pd, vaddr / 4096 / 1024))
                                   then Some(PageEntry(paddr, flags))
                                   else old(Lookup(d, page))
      ensures vaddr < 0xC000_0000 ==> forall d, page {:trigger Lookup(d, page)} ::
                d in dirs && d != pd && 0 <= page < FRAMES_TOTAL ==> Lookup(d, page) == old(Lookup(d, page))
      ensures r.Granted? ==> (Writable(pd, vaddr / 4096) <==> WritableBit(flags))
      ensures r.Granted? ==> (UserReachable(pd, vaddr / 4096) <==>
                        UserBit(flags)
                        && (!Present(old(Word(pd, vaddr / 4096 / 1024))) || UserBit(old(Word(pd, vaddr / 4096 / 1024)))))
    {
      hide PageEntry, UserBit, WritableBit, Present, EntryFrame;
      var page := vaddr / 4096;
      r := TableFor(pd, page / 1024, flags);
      if !r.Granted? { return; }
      assert OnlyTakes(old(pmm.free), pmm.free, old(tables.Keys), tables.Keys);
      hide OnlyTakes, Took;
      DirectoryEntryFields(r.frame, flags);
      forall d | d in dirs && vaddr < 0xC000_0000 && SharesTable(d, pd, page / 1024)
        ensures d == pd
      {
        UserTablesArePrivate(d, pd, page / 1024);
      }
      hide Valid, Structured, Lookup, SharesTable, UserReachable, Writable;
      EnterPage(pd, page, paddr, flags);
    }

    /** `pt[pti] = ...` with the flags of the mapping. */
    method EnterPage(pd: nat, page: nat, paddr: uint32, flags: uint32)
      requires Valid() && pd in dirs && page < FRAMES_TOTAL && Present(Word(pd, page / 1024)) && flags < 4096
      modifies ram
      ensures Valid()
      ensures forall d, i {:trigger Word(d, i)} :: d in dirs && 0 <= i < ENTRIES ==> Word(d, i) == old(Word(d, i))
      ensures forall d, q {:trigger Lookup(d, q)} :: d in dirs && 0 <= q < FRAMES_TOTAL ==>
                Lookup(d, q) == if q == page && old(SharesTable(d, pd, page / 1024))
                                then Some(PageEntry(paddr, flags)) else old(Lookup(d, q))
      ensures UserReachable(pd, page) <==> UserBit(flags) && UserBit(old(Word(pd, page / 1024)))
      ensures Writable(pd, page) <==> WritableBit(flags)
    {
      PageEntryFields(paddr, flags);
      assert SharesTable(pd, pd, page / 1024);
      assert WritableBit(Word(pd, page / 1024));
      hide PageEntry, UserBit, WritableBit, Present, EntryFrame, Structured, Lookup, SharesTable;
      StoreEntry(pd, page, PageEntry(paddr, flags));
    }

    /** Unmaps one page: exactly that translation disappears. */
    method UnmapPage(pd: nat, vaddr: uint32)
      requires Valid() && pd in dirs
      modifies ram
      ensures Valid()
      ensures forall d, page {:trigger Lookup(d, page)} :: d in dirs && 0 <= page < FRAMES_TOTAL ==>
                Lookup(d, page) == if page == vaddr / 4096 && old(SharesTable(d, pd, vaddr / 4096 / 1024))
                                   then None
                                   else old(Lookup(d, page))
    {
      if !Present(Word(pd, vaddr / 4096 / 1024)) { return; }
      StoreEntry(pd, vaddr / 4096, 0);
    }

    /** A directory for a new process: empty below 0xC0000000, and above it resolving
        as the kernel's directory does, through the same tables. */
    method CreateUserPd() returns (r: Grant)
      requires Valid() && kernelPd in dirs
      modifies this`dirs, pmm, pmm.bitmap, ram
      ensures Valid() && (r.NoFrame? <==> old(pmm.free) == {})
      ensures dirs == if r.Granted? then old(dirs) + {r.frame} else old(dirs)
      ensures !r.NoFrame? ==> Took(old(pmm.free), old(pmm.lastAlloc), r) && r.frame in old(pmm.free)
      ensures pmm.free == if r.NoFrame? then old(pmm.free) else old(pmm.free) - {r.frame}
      ensures forall d, page {:trigger Lookup(d, page)} :: d in old(dirs) && 0 <= page < FRAMES_TOTAL ==>
                Lookup(d, page) == old(Lookup(d, page))
      ensures r.Granted? ==> forall page {:trigger Lookup(r.frame, page)} :: 0 <= page < FRAMES_TOTAL ==>
                Lookup(r.frame, page) == if page < 0xC_0000 then None else old(Lookup(kernelPd, page))
      ensures r.Granted? ==> forall i :: 768 <= i < ENTRIES && Present(Word(kernelPd, i)) ==>
                SharesTable(r.frame, kernelPd, i)
    {
      r := NewDirectory();
      if r.Granted? {
        forall d, page {:trigger Lookup(d, page)} | d in old(dirs) && 0 <= page < FRAMES_TOTAL
          ensures Lookup(d, page) == old(Lookup(d, page))
        {
          assert Word(d, page / 1024) == old(Word(d, page / 1024));
        }
        forall page {:trigger Lookup(r.frame, page)} | 0xC_0000 <= page < FRAMES_TOTAL
          ensures Lookup(r.frame, page) == old(Lookup(kernelPd, page))
        {
          assert Word(r.frame, page / 1024) == old(Word(kernelPd, page / 1024));
        }
      }
    }

    /** Takes a frame and makes it a directory holding the kernel's upper entries. */
    method NewDirectory() returns (r: Grant)
      requires Valid() && kernelPd in dirs
      modifies this`dirs, pmm, pmm.bitmap, ram
      ensures Valid() && (r.NoFrame? <==> old(pmm.free) == {})
      ensures dirs == if r.Granted? then old(dirs) + {r.frame} else old(dirs)
      ensures !r.NoFrame? ==> Took(old(pmm.free), old(pmm.lastAlloc), r) && r.frame in old(pmm.free)
      ensures pmm.free == if r.NoFrame? then old(pmm.free) else old(pmm.free) - {r.frame}
      ensures forall g, k :: 0 <= g < FRAMES_TOTAL && (r.Granted? ==> g != r.frame) && 0 <= k < ENTRIES ==>
                ram[g, k] == old(ram[g, k])
      ensures r.Granted? ==> forall k :: 0 <= k < ENTRIES ==>
                ram[r.frame, k] == if k < KERNEL_FIRST_ENTRY then 0 else old(ram[kernelPd, k])
    {
      r := TakeFrame();
      if !r.Granted? { return; }
      var pd := r.frame;
      assert pd != kernelPd && pd !in dirs && pd !in tables;
      ClearFrame(pd);
      CopyKernelHalf(pd);
      dirs := dirs + {pd};
      forall d, i {:trigger Word(d, i)} | d in dirs && 0 <= i < ENTRIES && Present(Word(d, i))
        ensures EntryFrame(Word(d, i)) in tables && tables[EntryFrame(Word(d, i))] == SlotOf(d, i)
        ensures WritableBit(Word(d, i))
      {
        if d == pd {
          assert i >= KERNEL_FIRST_ENTRY && Word(pd, i) == old(Word(kernelPd, i));
        } else {
          assert Word(d, i) == old(Word(d, i));
        }
      }
    }

    /** Directory entries 768..1023 become the kernel's. */
    method CopyKernelHalf(pd: nat)
      requires ram.Length0 == FRAMES_TOTAL && ram.Length1 == ENTRIES
      requires pd < FRAMES_TOTAL && kernelPd < FRAMES_TOTAL && pd != kernelPd
      modifies ram
      ensures forall g, k :: 0 <= g < FRAMES_TOTAL && g != pd && 0 <= k < ENTRIES ==> ram[g, k] == old(ram[g, k])
      ensures forall k :: 0 <= k < ENTRIES ==>
                ram[pd, k] == if k < KERNEL_FIRST_ENTRY then old(ram[pd, k]) else old(ram[kernelPd, k])
    {
      for i := KERNEL_FIRST_ENTRY to ENTRIES
        invariant forall g, k :: 0 <= g < FRAMES_TOTAL && g != pd && 0 <= k < ENTRIES ==> ram[g, k] == old(ram[g, k])
        invariant forall k :: 0 <= k < ENTRIES ==>
                    ram[pd, k] == if KERNEL_FIRST_ENTRY <= k < i then old(ram[kernelPd, k]) else old(ram[pd, k])
      {
        ram[pd, i] := ram[kernelPd, i];
      }
    }

    /** Physical address of a virtual one; 0 if nothing is mapped there. */
    method VirtToPhys(pd: nat, vaddr: uint32) returns (phys: uint32)
      requires Valid() && pd in dirs
      ensures phys == match Lookup(pd, vaddr / 4096)
                      case None => 0
                      case Some(e) => Target(e, vaddr)
    {
      var i, j := vaddr / 4096 / 1024, vaddr / 4096 % 1024;
      if !Present(Word(pd, i)) { return 0; }
      var pt := EntryFrame(Word(pd, i));
      if !Present(ram[pt, j]) { return 0; }
      return Target(ram[pt, j], vaddr);
    }
  }
}
