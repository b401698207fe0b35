/** The physical memory manager: a bitmap with one bit per 4 KB frame,
    allocated next-fit (one frame) or first-fit (a contiguous run). */
module FrameAllocator {
  import opened Wrappers
  import opened Bitmap

  const FRAMES_TOTAL: nat := 0x10_0000
  const BITMAP_WORDS: nat := 0x8000
  const UINT32_RANGE: nat := 0x1_0000_0000
  const KERNEL_PHYS_BASE: nat := 0x10_0000
  const MMAP_AVAILABLE: nat := 1
  const MAX_MMAP_ENTRIES: nat := 64

  /** One entry of the boot loader's memory map: two 64-bit numbers and a type. */
  datatype MmapEntry = MmapEntry(baseAddr: nat, length: nat, kind: nat)

  /** The 4 KB frame that holds a physical address, and the address a frame starts at. */
  function FrameOf(physAddr: nat): nat {
    physAddr / 4096
  }

  function FrameBase(f: nat): nat {
    f * 4096
  }

  // ---------------------------------------------------------------------
  // Frames named by the memory map
  // ---------------------------------------------------------------------

  /** The first frame `Init` clears for an entry (truncated to 32 bits, as the
      source's cast does), and the frame it stops before. */
  function FirstFrame(e: MmapEntry): nat {
    var base := if e.baseAddr < KERNEL_PHYS_BASE then KERNEL_PHYS_BASE else e.baseAddr;
    base / 4096 % 0x1_0000_0000
  }

  function FrameLimit(e: MmapEntry): nat {
    var skip := if e.baseAddr < KERNEL_PHYS_BASE then KERNEL_PHYS_BASE - e.baseAddr else 0;
    if skip >= e.length then FirstFrame(e)
    else (FirstFrame(e) + (e.length - skip) / 4096 % 0x1_0000_0000) % 0x1_0000_0000
  }

  predicate Between(f: int, lo: int, hi: int) {
    lo <= f < hi
  }

  function Range(lo: int, hi: int): set<int> {
    set f | lo <= f < hi && Between(f, lo, hi)
  }

  /** Every frame `Init` clears on behalf of one entry. */
  function EntryFrames(e: MmapEntry): set<int> {
    if e.kind != MMAP_AVAILABLE then {}
    else Range(FirstFrame(e), if FrameLimit(e) < FRAMES_TOTAL then FrameLimit(e) else FRAMES_TOTAL)
  }

  function AvailableFrames(entries: seq<MmapEntry>): set<int> {
    if entries == [] then {}
    else AvailableFrames(entries[..|entries| - 1]) + EntryFrames(entries[|entries| - 1])
  }

  /** How often `Init` increments its counter over a memory map. */
  function Clearings(entries: seq<MmapEntry>): nat {
    if entries == [] then 0
    else Clearings(entries[..|entries| - 1]) + |EntryFrames(entries[|entries| - 1])|
  }

  /** Frames 256 up to and including the one that holds (or follows) the kernel's end. */
  function KernelFrames(kernelEnd: nat): set<int> {
    Range(FrameOf(KERNEL_PHYS_BASE), KernelEndFrame(kernelEnd) + 1)
  }

  function KernelEndFrame(kernelEnd: nat): nat {
    FrameOf((kernelEnd + 4095) % 0x1_0000_0000)
  }

  ghost predicate EntriesDisjoint(entries: seq<MmapEntry>) {
    forall i, j :: 0 <= i < j < |entries| ==> EntryFrames(entries[i]) !! EntryFrames(entries[j])
  }

  lemma {:induction false} EntryWithinAvailable(entries: seq<MmapEntry>, i: nat)
    requires i < |entries|
    ensures EntryFrames(entries[i]) <= AvailableFrames(entries)
  {
    if i < |entries| - 1 {
      EntryWithinAvailable(entries[..|entries| - 1], i);
    }
  }

  lemma {:induction false} AvailableComesFromEntry(entries: seq<MmapEntry>, f: int) returns (i: nat)
    requires f in AvailableFrames(entries)
    ensures i < |entries| && f in EntryFrames(entries[i])
  {
    if f in EntryFrames(entries[|entries| - 1]) {
      i := |entries| - 1;
    } else {
      i := AvailableComesFromEntry(entries[..|entries| - 1], f);
    }
  }

  lemma UnionSize(a: set<int>, b: set<int>)
    ensures |a + b| + |a * b| == |a| + |b|
  {
    assert a + b == (a - b) + b && (a - b) !! b;
    assert a == (a - b) + (a * b) && (a - b) !! (a * b);
  }

  /** The counter `Init` keeps is the number of cleared frames exactly when no
      two available regions of the memory map overlap; otherwise it is larger. */
  lemma {:induction false} ClearingsCountFrames(entries: seq<MmapEntry>)
    ensures |AvailableFrames(entries)| <= Clearings(entries)
    ensures Clearings(entries) == |AvailableFrames(entries)| <==> EntriesDisjoint(entries)
  {
    if entries != [] {
      var front, last := entries[..|entries| - 1], entries[|entries| - 1];
      ClearingsCountFrames(front);
      UnionSize(AvailableFrames(front), EntryFrames(last));
      if AvailableFrames(front) * EntryFrames(last) == {} {
        forall i, j | 0 <= i < j < |entries| && EntriesDisjoint(front)
          ensures EntryFrames(entries[i]) !! EntryFrames(entries[j])
        {
          if j == |entries| - 1 {
            EntryWithinAvailable(front, i);
          } else {
            assert entries[i] == front[i] && entries[j] == front[j];
          }
        }
        assert EntriesDisjoint(entries) ==> EntriesDisjoint(front) by {
          assert forall i :: 0 <= i < |front| ==> front[i] == entries[i];
        }
      } else {
        var f :| f in AvailableFrames(front) * EntryFrames(last);
        var i := AvailableComesFromEntry(front, f);
        assert f in EntryFrames(entries[i]) && f in EntryFrames(entries[|entries| - 1]);
      }
    }
  }

  /** A memory map that lists the same usable page twice: the counter starts one
      above the number of clear bits, so the counter is not a frame count. */
  lemma OverlapMiscounts()
    ensures var twice := [MmapEntry(0x20_0000, 4096, 1), MmapEntry(0x20_0000, 4096, 1)];
            |AvailableFrames(twice)| < Clearings(twice)
  {
    var e := MmapEntry(0x20_0000, 4096, 1);
    assert FirstFrame(e) == 512 && FrameLimit(e) == 513;
    assert 512 in EntryFrames(e);
    var twice := [e, e];
    assert !EntriesDisjoint(twice) by {
      assert 512 in EntryFrames(twice[0]) && 512 in EntryFrames(twice[1]);
    }
    ClearingsCountFrames(twice);
  }

  /** With page-aligned region starts, a cleared frame lies wholly inside one
      available region and wholly above the first megabyte. */
  lemma AvailableFramesAreUsableRam(entries: seq<MmapEntry>, f: int) returns (i: nat)
    requires f in AvailableFrames(entries)
    requires forall e :: e in entries ==> e.baseAddr % 4096 == 0 && e.baseAddr + e.length <= 0x1000_0000_0000
    ensures i < |entries| && f >= 256 && entries[i].kind == MMAP_AVAILABLE
    ensures entries[i].baseAddr <= FrameBase(f) && FrameBase(f + 1) <= entries[i].baseAddr + entries[i].length
  {
    i := AvailableComesFromEntry(entries, f);
    assert entries[i] in entries;
    EntryFrameWithinEntry(entries[i], f);
  }

  lemma EntryFrameWithinEntry(e: MmapEntry, f: int)
    requires f in EntryFrames(e)
    requires e.baseAddr % 4096 == 0 && e.baseAddr + e.length <= 0x1000_0000_0000
    ensures f >= 256 && e.baseAddr <= FrameBase(f) && FrameBase(f + 1) <= e.baseAddr + e.length
  {
    var base := if e.baseAddr < KERNEL_PHYS_BASE then KERNEL_PHYS_BASE else e.baseAddr;
    var skip := base - e.baseAddr;
    assert skip < e.length;
    assert FirstFrame(e) == base / 4096 && base == 4096 * (base / 4096);
    assert FrameLimit(e) <= base / 4096 + (e.length - skip) / 4096;
  }

  /** f is a whole frame of an available region, above the first megabyte. */
  ghost predicate UsableIn(e: MmapEntry, f: int) {
    && e.kind == 1 && 256 <= f < 0x10_0000
    && e.baseAddr <= 4096 * f && 4096 * f + 4096 <= e.baseAddr + e.length
  }

  /** With a page-aligned start below 16 TB, exactly the usable frames of a region are
      cleared. */
  lemma EntryFramesAreUsable(e: MmapEntry, f: int)
    requires e.baseAddr % 4096 == 0 && e.baseAddr + e.length < 0x1000_0000_0000
    ensures f in EntryFrames(e) <==> UsableIn(e, f)
  {
    if f in EntryFrames(e) { EntryFrameWithinEntry(e, f); }
    if UsableIn(e, f) {
      var base := if e.baseAddr < KERNEL_PHYS_BASE then KERNEL_PHYS_BASE else e.baseAddr;
      var skip := base - e.baseAddr;
      assert base == 4096 * (base / 4096) && FirstFrame(e) == base / 4096 <= f;
      assert (e.length - skip) / 4096 >= f + 1 - base / 4096;
      assert base / 4096 + (e.length - skip) / 4096 < 0x1_0000_0000;
    }
  }

  /** The frames reserved for the kernel start at 1 MB and include every frame its image
      touches, and one more. If its end plus 4095 wraps, nothing is reserved at all. */
  lemma KernelFramesAre(kernelEnd: nat, f: int)
    requires kernelEnd < UINT32_RANGE
    ensures kernelEnd <= 0xFFFF_F000 ==>
              (f in KernelFrames(kernelEnd) <==> 256 <= f && 4096 * f <= kernelEnd + 4095)
    ensures kernelEnd > 0xFFFF_F000 ==> f !in KernelFrames(kernelEnd)
  {
  }

  /** So the whole kernel image is reserved exactly if its end does not wrap. */
  lemma KernelImageIsReserved(kernelEnd: nat)
    requires kernelEnd < UINT32_RANGE
    ensures (forall f :: 256 <= f && 4096 * f < kernelEnd ==> f in KernelFrames(kernelEnd))
            <==> kernelEnd <= 0xFFFF_F000
  {
    forall f | 256 <= f && 4096 * f < kernelEnd
      ensures kernelEnd <= 0xFFFF_F000 ==> f in KernelFrames(kernelEnd)
    {
      KernelFramesAre(kernelEnd, f);
    }
    KernelFramesAre(kernelEnd, 256);
  }

  /** What boot leaves free, by address. */
  lemma BootFrees(entries: seq<MmapEntry>, kernelEnd: nat, f: int)
    requires kernelEnd <= 0xFFFF_F000
    requires forall e :: e in entries ==> e.baseAddr % 4096 == 0 && e.baseAddr + e.length < 0x1000_0000_0000
    ensures f in AvailableFrames(entries) - KernelFrames(kernelEnd) <==>
            4096 * f > kernelEnd + 4095 && exists i :: 0 <= i < |entries| && UsableIn(entries[i], f)
  {
    KernelFramesAre(kernelEnd, f);
    if f in AvailableFrames(entries) {
      var i := AvailableComesFromEntry(entries, f);
      assert entries[i] in entries;
      EntryFramesAreUsable(entries[i], f);
    }
    forall i | 0 <= i < |entries| && UsableIn(entries[i], f)
      ensures f in AvailableFrames(entries)
    {
      assert entries[i] in entries;
      EntryFramesAreUsable(entries[i], f);
      EntryWithinAvailable(entries, i);
    }
  }

  // ---------------------------------------------------------------------
  // What the two searches return
  // ---------------------------------------------------------------------

  /** Distance from the next-fit hint to frame f, walking upward and wrapping. */
  function CyclicDistance(hint: nat, f: int): int {
    (f - hint) % FRAMES_TOTAL
  }

  /** Frame f begins at 4096 * f, and every address in it belongs to it. */
  lemma FrameBaseIs(f: nat, x: nat)
    requires x < 4096
    ensures FrameBase(f) == 4096 * f && FrameBase(f) % 4096 == 0 && FrameBase(f) / 4096 == f
    ensures FrameOf(FrameBase(f) + x) == f
  {
  }

  /** f is the frame of `free` that a cyclic walk from `hint` meets first. */
  ghost predicate FirstFreeFrom(free: set<int>, hint: nat, f: int) {
    f in free && forall g :: g in free ==> CyclicDistance(hint, f) <= CyclicDistance(hint, g)
  }

  /** n consecutive free frames start at s. */
  ghost predicate RunAt(free: set<int>, s: int, n: nat) {
    0 <= s && s + n <= FRAMES_TOTAL && forall k :: s <= k < s + n ==> k in free
  }

  ghost predicate LowestRun(free: set<int>, s: int, n: nat) {
    RunAt(free, s, n) && forall t :: RunAt(free, t, n) ==> s <= t
  }

  class FrameBitmap {
    const bitmap: array<bv32>
    var totalFrames: nat
    var freeFrames: nat
    var lastAlloc: nat
    ghost var free: set<int>  // the frames whose bit is 0

    /** Bit f of the bitmap is 1: the frame is used or reserved. */
    predicate Used(f: int)
      reads bitmap
      requires bitmap.Length == BITMAP_WORDS && 0 <= f < FRAMES_TOTAL
    {
      BitSet(bitmap[f / 32], BitIndex(f))
    }

    /** `free` is exactly the set of clear bits. */
    ghost predicate Tracked()
      reads this`free, bitmap
    {
      && bitmap.Length == BITMAP_WORDS
      && (forall f :: f in free ==> 0 <= f < FRAMES_TOTAL)
      && (forall f {:trigger Used(f)} :: 0 <= f < FRAMES_TOTAL ==> (f in free <==> !Used(f)))
    }

    /** The counter is the number of clear bits; the next-fit hint is in range. */
    ghost predicate Valid()
      reads this, bitmap
    {
      && Tracked()
      && lastAlloc <= FRAMES_TOTAL
      && freeFrames == |free|
    }

    lemma UsedIsNotFree()
      requires Valid()
      ensures forall f :: 0 <= f < FRAMES_TOTAL ==> (Used(f) <==> f !in free)
      ensures freeFrames == |free|
    {
    }

    constructor ()
      ensures fresh(bitmap) && bitmap.Length == BITMAP_WORDS
      ensures freeFrames == 0 && lastAlloc == 0 && totalFrames == 0
    {
      bitmap := new bv32[BITMAP_WORDS](_ => 0);
      freeFrames, lastAlloc, totalFrames := 0, 0, 0;
    }

    method FrameTest(f: nat) returns (used: bool)
      requires Tracked() && f < FRAMES_TOTAL
      ensures used <==> f !in free
    {
      used := Used(f);
    }

    method FrameSet(f: nat)
      requires Tracked() && f < FRAMES_TOTAL
      modifies bitmap, this`free
      ensures Tracked() && free == old(free) - {f}
    {
      bitmap[f / 32] := WithBit(bitmap[f / 32], BitIndex(f));
      free := free - {f};
      ghost var w := old(bitmap[f / 32]);
      forall g | 0 <= g < FRAMES_TOTAL
        ensures Used(g) <==> (g == f || old(Used(g)))
      {
        if g / 32 == f / 32 {
          if g % 32 == f % 32 { SameBit(w, f, g); } else { OtherBit(w, f, g); }
        }
      }
    }

    method FrameClear(f: nat)
      requires Tracked() && f < FRAMES_TOTAL
      modifies bitmap, this`free
      ensures Tracked() && free == old(free) + {f}
    {
      bitmap[f / 32] := WithoutBit(bitmap[f / 32], BitIndex(f));
      free := free + {f};
      ghost var w := old(bitmap[f / 32]);
      forall g | 0 <= g < FRAMES_TOTAL
        ensures Used(g) <==> (g != f && old(Used(g)))
      {
        if g / 32 == f / 32 {
          if g % 32 == f % 32 { SameBit(w, f, g); } else { OtherBit(w, f, g); }
        }
      }
    }

    method MarkAllUsed()
      requires bitmap.Length == BITMAP_WORDS
      modifies bitmap, this`free
      ensures Tracked() && free == {}
    {
      for i := 0 to BITMAP_WORDS
        invariant forall k :: 0 <= k < i ==> bitmap[k] == 0xFFFF_FFFF
      {
        bitmap[i] := 0xFFFF_FFFF;
      }
      free := {};
      forall f | 0 <= f < FRAMES_TOTAL
        ensures Used(f)
      {
        AllOnes(f);
      }
    }

    /** Clears frames frameStart.. below limit, counting each clearing. */
    method FreeFrom(frameStart: nat, limit: nat)
      requires Tracked()
      modifies this`freeFrames, this`totalFrames, bitmap, this`free
      ensures Tracked()
      ensures var cleared := Range(frameStart, if limit < FRAMES_TOTAL then limit else FRAMES_TOTAL);
              && free == old(free) + cleared
              && freeFrames == old(freeFrames) + |cleared|
              && totalFrames == old(totalFrames) + |cleared|
    {
      var f := frameStart;
      while f < limit
        invariant frameStart <= f && (f <= limit || f == frameStart)
        invariant f <= FRAMES_TOTAL || f == frameStart
        invariant Tracked()
        invariant free == old(free) + Range(frameStart, f)
        invariant freeFrames == old(freeFrames) + (f - frameStart)
        invariant totalFrames == old(totalFrames) + (f - frameStart)
      {
        if f >= FRAMES_TOTAL { break; }
        FrameClear(f);
        freeFrames := freeFrames + 1;
        totalFrames := totalFrames + 1;
        f := f + 1;
      }
      ghost var end := if limit < FRAMES_TOTAL then limit else FRAMES_TOTAL;
      assert Range(frameStart, f) == Range(frameStart, end);
      RangeSize(frameStart, f);
    }

    /** Clears the frames of one memory-map entry. */
    method FreeEntry(e: MmapEntry)
      requires Tracked()
      modifies this`freeFrames, this`totalFrames, bitmap, this`free
      ensures Tracked() && free == old(free) + EntryFrames(e)
      ensures freeFrames == old(freeFrames) + |EntryFrames(e)|
      ensures totalFrames == old(totalFrames) + |EntryFrames(e)|
    {
      if e.kind != MMAP_AVAILABLE { return; }
      FreeFrom(FirstFrame(e), FrameLimit(e));
    }

    method FreeEntries(entries: seq<MmapEntry>)
      requires Tracked() && free == {} && freeFrames == 0 && |entries| <= MAX_MMAP_ENTRIES
      modifies this`freeFrames, this`totalFrames, bitmap, this`free
      ensures Tracked() && free == AvailableFrames(entries)
      ensures freeFrames == Clearings(entries) < UINT32_RANGE
      ensures totalFrames == old(totalFrames) + Clearings(entries)
    {
      var i := 0;
      while i < |entries|
        invariant i <= |entries|
        invariant Tracked() && free == AvailableFrames(entries[..i])
        invariant freeFrames == Clearings(entries[..i]) <= i * FRAMES_TOTAL
        invariant totalFrames == old(totalFrames) + Clearings(entries[..i])
      {
        assert entries[..i + 1][..i] == entries[..i] && entries[..i + 1][i] == entries[i];
        EntryFramesBound(entries[i]);
        FreeEntry(entries[i]);
        i := i + 1;
      }
      assert entries[..i] == entries;
    }

    /** Marks frames first..last used again, counting down only for clear bits. */
    method ReserveBetween(first: nat, last: nat)
      requires Tracked() && |free| <= freeFrames && last < FRAMES_TOTAL
      modifies this`freeFrames, bitmap, this`free
      ensures Tracked() && free == old(free) - Range(first, last + 1)
      ensures freeFrames - |free| == old(freeFrames) - |old(free)|
      ensures freeFrames <= old(freeFrames)
    {
      var f := first;
      ghost var surplus := freeFrames - |free|;
      while f <= last
        invariant first <= f && (f <= last + 1 || f == first)
        invariant Tracked()
        invariant forall g :: g in free <==> g in old(free) && !(first <= g < f)
        invariant freeFrames == |free| + surplus <= old(freeFrames)
      {
        var used := FrameTest(f);
        if !used {
          FrameSet(f);
          freeFrames := freeFrames - 1;
        }
        f := f + 1;
      }
      assert forall g :: g in free <==> g in old(free) - Range(first, last + 1);
    }

    /** Boot-time initialisation from the memory map. Nothing is assumed about the
        regions; whether the counter comes out right is stated by the last clause. */
    method Init(entries: seq<MmapEntry>, kernelEnd: nat)
      requires bitmap.Length == BITMAP_WORDS && lastAlloc <= FRAMES_TOTAL
      requires |entries| <= MAX_MMAP_ENTRIES && kernelEnd < UINT32_RANGE
      modifies this, bitmap
      ensures Tracked() && free == AvailableFrames(entries) - KernelFrames(kernelEnd)
      ensures freeFrames == |free| + (Clearings(entries) - |AvailableFrames(entries)|) < UINT32_RANGE
      ensures totalFrames == old(totalFrames) + Clearings(entries)
      ensures lastAlloc == old(lastAlloc)
      ensures Valid() <==> EntriesDisjoint(entries)
    {
      MarkAllUsed();
      freeFrames := 0;
      FreeEntries(entries);
      ClearingsCountFrames(entries);
      ReserveBetween(FrameOf(KERNEL_PHYS_BASE), KernelEndFrame(kernelEnd));
    }

    /** Next-fit allocation of one frame; `None` is a kernel panic. The panic happens
        exactly when nothing is free: the "bitmap inconsistent" one is unreachable. */
    method AllocFrame() returns (r: Option<nat>)
      requires Valid()
      modifies this`freeFrames, this`lastAlloc, bitmap, this`free
      ensures Valid()
      ensures r.None? <==> old(free) == {}
      ensures r.None? ==> free == old(free) && lastAlloc == old(lastAlloc)
      ensures r.Some? ==>
                && lastAlloc >= 1
                && r.value == 4096 * (lastAlloc - 1)
                && FirstFreeFrom(old(free), old(lastAlloc), lastAlloc - 1)
                && free == old(free) - {lastAlloc - 1}
    {
      if freeFrames == 0 { return None; }
      for i := 0 to FRAMES_TOTAL
        invariant forall g :: g in free ==> CyclicDistance(lastAlloc, g) >= i
        invariant free != {}
        invariant Valid() && free == old(free) && lastAlloc == old(lastAlloc)
      {
        var f := (lastAlloc + i) % FRAMES_TOTAL;
        WalkDistance(lastAlloc, i);
        var used := FrameTest(f);
        if !used {
          FrameSet(f);
          freeFrames := freeFrames - 1;
          lastAlloc := f + 1;
          return Some(FrameBase(f));
        }
        forall g | g in free
          ensures CyclicDistance(lastAlloc, g) >= i + 1
        {
          if CyclicDistance(lastAlloc, g) == i { DistanceInjective(lastAlloc, f, g); }
        }
      }
      // No frame is FRAMES_TOTAL or more steps away, so the second panic of the
      // source is dead code.
      NothingIsFurther(free, lastAlloc);
      assert false;
      return None;
    }

    /** First-fit allocation of n contiguous frames; `None` is a kernel panic, which
        happens exactly when n is 0 or no run of n free frames exists. */
    method AllocFrames(n: nat) returns (r: Option<nat>)
      requires Valid()
      modifies this`freeFrames, bitmap, this`free
      ensures Valid()
      ensures r.None? <==> n == 0 || !exists s :: RunAt(old(free), s, n)
      ensures r.None? ==> free == old(free)
      ensures r.Some? ==>
                && r.value % 4096 == 0 && LowestRun(old(free), r.value / 4096, n)
                && free == old(free) - Range(r.value / 4096, r.value / 4096 + n)
    {
      var start := FindRun(n);
      if start.None? { return None; }
      TakeRun(start.value, n);
      FrameBaseIs(start.value, 0);
      hide *;
      return Some(FrameBase(start.value));
    }

    /** The scan for the first run of n clear frames. */
    method FindRun(n: nat) returns (r: Option<nat>)
      requires Valid()
      ensures r.None? <==> n == 0 || !exists s :: RunAt(free, s, n)
      ensures r.Some? ==> LowestRun(free, r.value, n)
    {
      var start, run := 0, 0;
      for f := 0 to FRAMES_TOTAL
        invariant 0 <= run <= f && (n > 0 ==> run < n)
        invariant run > 0 ==> start == f - run
        invariant forall k :: f - run <= k < f ==> k in free
        invariant f > run ==> f - run - 1 !in free
        invariant n > 0 ==> forall s :: RunAt(free, s, n) ==> s + n > f
      {
        var used := FrameTest(f);
        if !used {
          if run == 0 { start := f; }
          run := run + 1;
          if run == n {
            assert LowestRun(free, start, n);
            return Some(start);
          }
          NoRunEndsAt(free, f, run, n);
        } else {
          run := 0;
          NoRunEndsAt(free, f, run, n);
        }
      }
      return None;
    }

    method TakeRun(start: nat, n: nat)
      requires Valid() && RunAt(free, start, n)
      modifies this`freeFrames, bitmap, this`free
      ensures Valid() && free == old(free) - Range(start, start + n)
    {
      var k := start;
      while k < start + n
        invariant start <= k <= start + n
        invariant Valid() && free == old(free) - Range(start, k)
      {
        assert k in free;
        FrameSet(k);
        freeFrames := freeFrames - 1;
        k := k + 1;
      }
    }

    /** Gives a frame back; freeing a free frame is ignored. */
    method FreeFrame(physAddr: nat)
      requires Valid() && physAddr < UINT32_RANGE
      modifies this`freeFrames, bitmap, this`free
      ensures Valid() && free == old(free) + {physAddr / 4096}
    {
      var f := FrameOf(physAddr);
      if f >= FRAMES_TOTAL { return; }
      var used := FrameTest(f);
      if !used { return; }
      FrameClear(f);
      freeFrames := freeFrames + 1;
    }
  }

  lemma NothingIsFurther(free: set<int>, hint: nat)
    requires forall g :: g in free ==> CyclicDistance(hint, g) >= FRAMES_TOTAL
    ensures free == {}
  {
    forall g
      ensures g !in free
    {
      assert CyclicDistance(hint, g) < FRAMES_TOTAL;
    }
  }

  /** After `run` clear frames ending at f, preceded by a used one, no run of
      n > run frames ends at f. */
  lemma NoRunEndsAt(free: set<int>, f: int, run: nat, n: nat)
    requires n > 0 ==> run < n
    requires f >= run ==> f - run !in free
    ensures n > 0 ==> forall s :: RunAt(free, s, n) ==> s + n != f + 1
  {
    forall s | n > 0 && RunAt(free, s, n)
      ensures s + n != f + 1
    {
      assert s <= f - run < s + n || s + n != f + 1;
    }
  }

  // ---------------------------------------------------------------------
  // Ownership over whole runs
  // ---------------------------------------------------------------------

  /** The free frames and the frames callers hold. */
  datatype Owners = Owners(free: set<int>, hint: nat, held: set<int>)

  datatype Request = TakeOne | TakeMany(n: nat) | GiveBack(physAddr: nat)

  /** One allocator call as the contracts of `FrameBitmap` describe it, made by
      callers that give back only frames they hold. */
  ghost predicate Served(s: Owners, req: Request, t: Owners) {
    match req
    case TakeOne =>
      t.hint >= 1 && FirstFreeFrom(s.free, s.hint, t.hint - 1)
      && t.free == s.free - {t.hint - 1} && t.held == s.held + {t.hint - 1}
    case TakeMany(n) =>
      exists first :: LowestRun(s.free, first, n) && t.hint == s.hint
                      && t.free == s.free - Range(first, first + n) && t.held == s.held + Range(first, first + n)
    case GiveBack(physAddr) =>
      FrameOf(physAddr) in s.held && t.hint == s.hint
      && t.free == s.free + {FrameOf(physAddr)} && t.held == s.held - {FrameOf(physAddr)}
  }

  /** Every call the allocator answers is such a step, so the runs below are the runs of
      the allocator; `false` is a kernel panic, which ends the run. */
  method Serve(pmm: FrameBitmap, req: Request, ghost held: set<int>) returns (ok: bool, ghost after: Owners)
    requires pmm.Valid()
    requires req.GiveBack? ==> req.physAddr < UINT32_RANGE && FrameOf(req.physAddr) in held
    modifies pmm`freeFrames, pmm`lastAlloc, pmm.bitmap, pmm`free
    ensures pmm.Valid() && after.free == pmm.free && after.hint == pmm.lastAlloc
    ensures ok ==> Served(old(Owners(pmm.free, pmm.lastAlloc, held)), req, after)
    ensures !ok ==> after == old(Owners(pmm.free, pmm.lastAlloc, held)) && !req.GiveBack?
  {
    hide FrameBitmap.Valid, FirstFreeFrom, LowestRun, RunAt, Range;
    ok, after := true, Owners(pmm.free, pmm.lastAlloc, held);
    match req {
      case TakeOne =>
        var r := pmm.AllocFrame();
        ok := r.Some?;
        if ok { after := Owners(pmm.free, pmm.lastAlloc, held + {pmm.lastAlloc - 1}); }
      case TakeMany(n) =>
        var r := pmm.AllocFrames(n);
        ok := r.Some?;
        if ok {
          ghost var first := FrameOf(r.value);
          after := Owners(pmm.free, pmm.lastAlloc, held + Range(first, first + n));
        }
      case GiveBack(physAddr) =>
        pmm.FreeFrame(physAddr);
        after := Owners(pmm.free, pmm.lastAlloc, held - {FrameOf(physAddr)});
    }
  }

  ghost predicate IsRun(states: seq<Owners>, requests: seq<Request>) {
    |states| == |requests| + 1
    && forall i :: 0 <= i < |requests| ==> Served(states[i], requests[i], states[i + 1])
  }

  /** Conservation: along every run, a frame is free or held, never both, and
      together they are the frames that were free at the start. */
  lemma {:induction false} FramesAreConserved(states: seq<Owners>, requests: seq<Request>, i: nat)
    requires IsRun(states, requests) && states[0].held == {} && i < |states|
    ensures states[i].held !! states[i].free
    ensures states[i].held + states[i].free == states[0].free
  {
    if i > 0 {
      FramesAreConserved(states, requests, i - 1);
      assert Served(states[i - 1], requests[i - 1], states[i]);
      match requests[i - 1]
      case TakeOne =>
      case TakeMany(n) =>
        var first :| LowestRun(states[i - 1].free, first, n)
                     && states[i].free == states[i - 1].free - Range(first, first + n)
                     && states[i].held == states[i - 1].held + Range(first, first + n);
        assert Range(first, first + n) <= states[i - 1].free;
      case GiveBack(_) =>
    }
  }

  /** Started from a boot memory map, no run ever hands out a frame of the first
      megabyte or of the kernel image, whatever callers do with frames they hold. */
  lemma ReservedFramesNeverHandedOut(entries: seq<MmapEntry>, kernelEnd: nat,
                                     states: seq<Owners>, requests: seq<Request>, i: nat, f: int)
    requires IsRun(states, requests) && i < |states| && states[0].held == {}
    requires states[0].free == AvailableFrames(entries) - KernelFrames(kernelEnd)
    requires forall e :: e in entries ==> e.baseAddr + e.length <= 0x1000_0000_0000
    requires f in states[i].held
    ensures f >= 256 && f !in KernelFrames(kernelEnd)
    ensures kernelEnd <= 0xFFFF_F000 ==> 4096 * f > kernelEnd
  {
    if kernelEnd <= 0xFFFF_F000 { KernelFramesAre(kernelEnd, f); }
    FramesAreConserved(states, requests, i);
    var k := AvailableComesFromEntry(entries, f);
    assert entries[k] in entries;
    FirstFrameAboveLegacy(entries[k], f);
  }

  lemma FirstFrameAboveLegacy(e: MmapEntry, f: int)
    requires f in EntryFrames(e) && e.baseAddr + e.length <= 0x1000_0000_0000
    ensures f >= 256
  {
    var base := if e.baseAddr < KERNEL_PHYS_BASE then KERNEL_PHYS_BASE else e.baseAddr;
    assert base / 4096 < UINT32_RANGE;
  }

  lemma EntryFramesBound(e: MmapEntry)
    ensures |EntryFrames(e)| <= FRAMES_TOTAL
  {
    RangeSize(0, FRAMES_TOTAL);
    assert EntryFrames(e) <= Range(0, FRAMES_TOTAL);
    SubsetSize(EntryFrames(e), Range(0, FRAMES_TOTAL));
  }

  lemma {:induction false} RangeSize(lo: int, hi: int)
    requires lo <= hi
    ensures |Range(lo, hi)| == hi - lo
    decreases hi - lo
  {
    if lo < hi {
      RangeSize(lo, hi - 1);
      assert Range(lo, hi) == Range(lo, hi - 1) + {hi - 1};
    }
  }

  lemma SubsetSize(a: set<int>, b: set<int>)
    requires a <= b
    ensures |a| <= |b|
  {
    assert b == a + (b - a) && a !! (b - a);
  }

  lemma WalkDistance(hint: nat, i: nat)
    requires i < FRAMES_TOTAL
    ensures CyclicDistance(hint, (hint + i) % FRAMES_TOTAL) == i
  {
  }

  lemma DistanceInjective(hint: nat, f: int, g: int)
    requires 0 <= f < FRAMES_TOTAL && 0 <= g < FRAMES_TOTAL
    requires CyclicDistance(hint, f) == CyclicDistance(hint, g)
    ensures f == g
  {
  }
}
