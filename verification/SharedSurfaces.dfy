/** Pixel surfaces shared between the kernel and a process: a table of 32 slots,
    each active one owning a run of physical frames. */
module SharedSurfaces {
  import opened Wrappers
  import opened FrameAllocator

  const MAX_SURFACES: nat := 32

  datatype Surface = Surface(id: nat, ownerPid: nat, width: nat, height: nat, pitch: nat,
                             virtKernel: nat, virtUser: nat, physBase: nat, active: bool)

  const BLANK: Surface := Surface(0, 0, 0, 0, 0, 0, 0, 0, false)

  /** `(w * h * 4 + 4095) / 4096`, every step in 32 bits. */
  function PagesFor(w: nat, h: nat): nat {
    PagesForBytes(w * h * 4 % 0x1_0000_0000)
  }

  function PagesForBytes(size: nat): nat {
    (size + 4095) % 0x1_0000_0000 / 4096
  }

  function FirstFrameOf(s: Surface): nat {
    FrameOf(s.physBase)
  }

  /** The frames a surface owns. */
  function Frames(s: Surface): set<int> {
    Range(FirstFrameOf(s), FirstFrameOf(s) + PagesFor(s.width, s.height))
  }

  /** The frames reserved for a w-by-h surface hold all its pixels exactly when the
      byte count, rounded up, fits in 32 bits: larger sizes wrap and come out short.
      When they hold them, there is no frame too many. */
  lemma PagesHoldThePixels(w: nat, h: nat)
    ensures PagesFor(w, h) * 4096 >= w * h * 4 <==> w * h * 4 + 4095 < UINT32_RANGE
    ensures w * h * 4 + 4095 < UINT32_RANGE ==> PagesFor(w, h) * 4096 < w * h * 4 + 4096
  {
    BytesFit(w * h * 4);
  }

  lemma BytesFit(n: nat)
    ensures PagesForBytes(n % 0x1_0000_0000) * 4096 >= n <==> n + 4095 < UINT32_RANGE
    ensures n + 4095 < UINT32_RANGE ==> PagesForBytes(n % 0x1_0000_0000) * 4096 < n + 4096
  {
    if n + 4095 < UINT32_RANGE {
      assert n % 0x1_0000_0000 == n;
      RoundedUp(n + 4095);
    } else {
      var size := n % 0x1_0000_0000;
      if size + 4095 < UINT32_RANGE {
        assert n >= UINT32_RANGE;
        RoundedDown(size + 4095);
      } else {
        assert (size + 4095) % 0x1_0000_0000 == size + 4095 - UINT32_RANGE < 4096;
      }
    }
  }

  lemma RoundedUp(x: nat)
    ensures x - 4095 <= x / 4096 * 4096 <= x
  {
  }

  lemma RoundedDown(x: nat)
    requires x < UINT32_RANGE
    ensures x / 4096 * 4096 < UINT32_RANGE
  {
  }

  /** A 65536 by 65537 surface needs 17 GB and is given 64 pages. */
  lemma OversizedSurfaceIsShort()
    ensures PagesFor(0x1_0000, 0x1_0001) == 64
  {
    assert 0x1_0000 * 0x1_0001 * 4 % 0x1_0000_0000 == 0x4_0000;
  }

  /** The owned run is not empty, starts on a frame boundary and lies in memory. */
  predicate WellPlaced(s: Surface) {
    && 0 < PagesFor(s.width, s.height)
    && s.physBase == FrameBase(FirstFrameOf(s))
    && FirstFrameOf(s) + PagesFor(s.width, s.height) <= FRAMES_TOTAL
  }

  predicate Live(ss: seq<Surface>, i: int) {
    0 <= i < |ss| && ss[i].active
  }

  /** Live surfaces own no free frame and no frame of one another. */
  ghost predicate Owning(ss: seq<Surface>, free: set<int>) {
    && (forall i :: Live(ss, i) ==> WellPlaced(ss[i]) && Frames(ss[i]) !! free)
    && (forall i, j :: Live(ss, i) && Live(ss, j) && i != j ==> Frames(ss[i]) !! Frames(ss[j]))
  }

  /** Until the 32-bit counter wraps, live ids are issued ids and all different. */
  ghost predicate Numbered(ss: seq<Surface>, issued: nat) {
    issued < UINT32_RANGE ==>
      && (forall i :: Live(ss, i) ==> 1 <= ss[i].id <= issued)
      && (forall i, j :: Live(ss, i) && Live(ss, j) && i != j ==> ss[i].id != ss[j].id)
  }

  lemma RunIsPlaced(free: set<int>, s: Surface)
    requires PagesFor(s.width, s.height) > 0 && s.physBase == FrameBase(FirstFrameOf(s))
    requires LowestRun(free, FirstFrameOf(s), PagesFor(s.width, s.height))
    ensures WellPlaced(s) && Frames(s) <= free
  {
  }

  lemma OwningAfterCreate(ss: seq<Surface>, free: set<int>, i: nat, s: Surface)
    requires Owning(ss, free) && i < |ss| && !ss[i].active && WellPlaced(s) && Frames(s) <= free
    ensures Owning(ss[i := s], free - Frames(s))
  {
    var tt := ss[i := s];
    forall k | Live(tt, k)
      ensures WellPlaced(tt[k]) && Frames(tt[k]) !! free - Frames(s)
      ensures k != i ==> Frames(tt[k]) !! Frames(s)
    {
      if k != i { assert Live(ss, k); }
    }
    forall j, k | Live(tt, j) && Live(tt, k) && j != k
      ensures Frames(tt[j]) !! Frames(tt[k])
    {
      if j != i && k != i { assert Live(ss, j) && Live(ss, k); }
    }
  }

  lemma OwningAfterDestroy(ss: seq<Surface>, free: set<int>, i: nat)
    requires Owning(ss, free) && Live(ss, i)
    ensures Owning(ss[i := ss[i].(active := false)], free + Frames(ss[i]))
  {
    var tt := ss[i := ss[i].(active := false)];
    assert forall k :: Live(tt, k) ==> k != i && Live(ss, k) && tt[k] == ss[k];
  }

  lemma NumberedAfterCreate(ss: seq<Surface>, issued: nat, i: nat, s: Surface)
    requires Numbered(ss, issued) && i < |ss| && !ss[i].active && (issued < UINT32_RANGE - 1 ==> s.id == issued + 1)
    ensures Numbered(ss[i := s], issued + 1)
  {
    var tt := ss[i := s];
    assert forall k :: Live(tt, k) && k != i ==> Live(ss, k) && tt[k] == ss[k];
  }

  lemma NumberedAfterDestroy(ss: seq<Surface>, issued: nat, i: nat)
    requires Numbered(ss, issued) && Live(ss, i)
    ensures Numbered(ss[i := ss[i].(active := false)], issued)
  {
    var tt := ss[i := ss[i].(active := false)];
    assert forall k :: Live(tt, k) ==> k != i && Live(ss, k) && tt[k] == ss[k];
  }

  lemma NthFrame(physBase: nat, p: nat)
    requires physBase == FrameBase(FrameOf(physBase)) && FrameOf(physBase) + p < FRAMES_TOTAL
    ensures (physBase + p * 4096) % 0x1_0000_0000 == FrameBase(FrameOf(physBase) + p)
    ensures FrameOf(FrameBase(FrameOf(physBase) + p)) == FrameOf(physBase) + p
  {
  }

  datatype Creation = NoSlot | Panic | Created(slot: nat)

  class SurfaceTable {
    const pmm: FrameBitmap
    const surfaces: array<Surface>
    var nextId: nat
    ghost var issued: nat  // surfaces created since boot

    constructor (pmm: FrameBitmap)
      requires pmm.Valid()
      ensures this.pmm == pmm && fresh(surfaces) && Valid()
      ensures surfaces.Length == 32 && nextId == 1 && issued == 0
      ensures forall i :: !Live(surfaces[..], i)
    {
      this.pmm := pmm;
      surfaces := new Surface[MAX_SURFACES](_ => BLANK);
      nextId, issued := 1, 0;
    }

    ghost predicate Valid()
      reads this, pmm, pmm.bitmap, surfaces
    {
      && surfaces.Length == MAX_SURFACES && (surfaces as object) != pmm.bitmap && pmm.Valid()
      && Owning(surfaces[..], pmm.free)
      && Numbered(surfaces[..], issued)
      && nextId < UINT32_RANGE && (issued < UINT32_RANGE - 1 ==> nextId == issued + 1)
    }

    /** Takes the first inactive slot and a run of frames. `Panic` is the allocator's. */
    method Create(pid: nat, w: nat, h: nat) returns (r: Creation)
      requires Valid() && pid < UINT32_RANGE && w < UINT32_RANGE && h < UINT32_RANGE
      modifies this, surfaces, pmm`freeFrames, pmm`free, pmm.bitmap
      ensures r.NoSlot? <==> forall i :: 0 <= i < MAX_SURFACES ==> Live(old(surfaces[..]), i)
      ensures r.Panic? ==> PagesFor(w, h) == 0 || !exists s :: RunAt(old(pmm.free), s, PagesFor(w, h))
      ensures r.NoSlot? ==> unchanged(this) && unchanged(surfaces) && unchanged(pmm)
      ensures r.Panic? ==> pmm.free == old(pmm.free)
      ensures !r.Panic? ==> Valid()
      ensures r.Created? ==> FillsSlot(old(surfaces[..]), old(pmm.free), old(nextId), r.slot, pid, w, h)
      ensures r.Created? ==> issued == old(issued) + 1
      ensures r.Created? ==> forall i :: 0 <= i < r.slot ==> Live(old(surfaces[..]), i)
    {
      for i := 0 to MAX_SURFACES
        invariant unchanged(this) && unchanged(surfaces) && unchanged(pmm) && unchanged(pmm.bitmap)
        invariant forall k :: 0 <= k < i ==> Live(surfaces[..], k)
      {
        if !surfaces[i].active {
          assert !Live(surfaces[..], i);
          var ok := Fill(i, pid, w, h);
          return if ok then Created(i) else Panic;
        }
      }
      return NoSlot;
    }

    /** Slot i now holds a new w-by-h surface on the lowest free run that fits it,
        and nothing else has changed. */
    ghost predicate FillsSlot(before: seq<Surface>, free: set<int>, id: nat, i: nat, pid: nat, w: nat, h: nat)
      reads this, pmm, surfaces
      requires surfaces.Length == MAX_SURFACES
    {
      && i < MAX_SURFACES && |before| == MAX_SURFACES && !before[i].active
      && surfaces[i] == Surface(id, pid, w, h, w * 4 % 0x1_0000_0000,
                                (surfaces[i].physBase + 0xC000_0000) % 0x1_0000_0000, 0, surfaces[i].physBase, true)
      && surfaces[..] == before[i := surfaces[i]]
      && LowestRun(free, FirstFrameOf(surfaces[i]), PagesFor(w, h))
      && pmm.free == free - Frames(surfaces[i])
    }

    method Fill(i: nat, pid: nat, w: nat, h: nat) returns (ok: bool)
      requires Valid() && i < MAX_SURFACES && !surfaces[i].active
      modifies this, surfaces, pmm`freeFrames, pmm`free, pmm.bitmap
      ensures !ok <==> PagesFor(w, h) == 0 || !exists s :: RunAt(old(pmm.free), s, PagesFor(w, h))
      ensures !ok ==> pmm.free == old(pmm.free)
      ensures ok ==> Valid() && issued == old(issued) + 1
                     && FillsSlot(old(surfaces[..]), old(pmm.free), old(nextId), i, pid, w, h)
    {
      hide Owning, Numbered, WellPlaced, LowestRun, FrameBitmap.Valid, PagesFor;
      var id := nextId;
      nextId := (nextId + 1) % 0x1_0000_0000;
      var base := pmm.AllocFrames(PagesFor(w, h));
      if base.None? { return false; }
      var s := Surface(id, pid, w, h, w * 4 % 0x1_0000_0000, (base.value + 0xC000_0000) % 0x1_0000_0000,
                       0, base.value, true);
      RunIsPlaced(old(pmm.free), s);
      OwningAfterCreate(old(surfaces[..]), old(pmm.free), i, s);
      NumberedAfterCreate(old(surfaces[..]), old(issued), i, s);
      surfaces[i] := s;
      issued := issued + 1;
      assert surfaces[..] == old(surfaces[..])[i := s];
      return true;
    }

    /** The first live slot with this id: until the counter wraps, the only one. */
    method Get(id: nat) returns (r: Option<nat>)
      requires Valid()
      ensures r.None? <==> forall i :: Live(surfaces[..], i) ==> surfaces[i].id != id
      ensures r.Some? ==> Live(surfaces[..], r.value) && surfaces[r.value].id == id
      ensures r.Some? ==> forall i :: Live(surfaces[..], i) && i < r.value ==> surfaces[i].id != id
      ensures r.Some? && issued < UINT32_RANGE ==>
                forall i :: Live(surfaces[..], i) && surfaces[i].id == id ==> i == r.value
    {
      for i := 0 to MAX_SURFACES
        invariant forall k :: Live(surfaces[..], k) && k < i ==> surfaces[k].id != id
      {
        if surfaces[i].active && surfaces[i].id == id {
          assert Live(surfaces[..], i);
          return Some(i);
        }
      }
      return None;
    }

    /** Gives the frames of a surface back and frees its slot. */
    method Destroy(id: nat) returns (ghost slot: Option<nat>)
      requires Valid()
      modifies surfaces, pmm`freeFrames, pmm`free, pmm.bitmap
      ensures Valid()
      ensures slot.None? <==> forall i :: Live(old(surfaces[..]), i) ==> old(surfaces[..])[i].id != id
      ensures slot.None? ==> unchanged(surfaces) && unchanged(pmm)
      ensures slot.Some? ==>
                && Live(old(surfaces[..]), slot.value) && old(surfaces[slot.value].id) == id
                && surfaces[..] == old(surfaces[..])[slot.value := old(surfaces[slot.value]).(active := false)]
                && pmm.free == old(pmm.free) + Frames(old(surfaces[slot.value]))
    {
      hide Owning, Numbered, Frames;
      var found := Get(id);
      slot := found;
      if found.Some? { Release(found.value); }
    }

    method Release(i: nat)
      requires Valid() && Live(surfaces[..], i)
      modifies surfaces, pmm`freeFrames, pmm`free, pmm.bitmap
      ensures Valid() && surfaces[..] == old(surfaces[..])[i := old(surfaces[i]).(active := false)]
      ensures pmm.free == old(pmm.free) + Frames(old(surfaces[i]))
    {
      var s := surfaces[i];
      assert WellPlaced(s);
      OwningAfterDestroy(surfaces[..], pmm.free, i);
      NumberedAfterDestroy(surfaces[..], issued, i);
      assert Frames(s) == Range(FrameOf(s.physBase), FrameOf(s.physBase) + PagesFor(s.width, s.height));
      hide Owning, Numbered, Frames, Range, FrameBitmap.Valid, PagesFor;
      GiveBack(s.physBase, PagesFor(s.width, s.height));
      surfaces[i] := s.(active := false);
      assert surfaces[..] == old(surfaces[..])[i := s.(active := false)];
    }

    method GiveBack(physBase: nat, pages: nat)
      requires pmm.Valid() && physBase == FrameBase(FrameOf(physBase)) && FrameOf(physBase) + pages <= FRAMES_TOTAL
      modifies pmm`freeFrames, pmm`free, pmm.bitmap
      ensures pmm.Valid() && pmm.free == old(pmm.free) + Range(FrameOf(physBase), FrameOf(physBase) + pages)
    {
      hide FrameBitmap.Valid;
      for p := 0 to pages
        invariant pmm.Valid()
        invariant pmm.free == old(pmm.free) + Range(FrameOf(physBase), FrameOf(physBase) + p)
      {
        NthFrame(physBase, p);
        pmm.FreeFrame((physBase + p * 4096) % 0x1_0000_0000);
      }
    }
  }

  /** Creating a surface and destroying it restores the bitmap and the counter. */
  method CreateThenDestroy(t: SurfaceTable, pid: nat, w: nat, h: nat) returns (r: Creation)
    requires t.Valid() && pid < UINT32_RANGE && w < UINT32_RANGE && h < UINT32_RANGE
    requires t.issued < UINT32_RANGE - 1
    modifies t, t.surfaces, t.pmm`freeFrames, t.pmm`free, t.pmm.bitmap
    ensures r.Created? ==> t.Valid() && t.pmm.free == old(t.pmm.free) && t.pmm.freeFrames == old(t.pmm.freeFrames)
    ensures r.Created? ==> forall f :: 0 <= f < FRAMES_TOTAL ==> (t.pmm.Used(f) <==> old(t.pmm.Used(f)))
    ensures r.Created? ==> forall i :: Live(t.surfaces[..], i) <==> Live(old(t.surfaces[..]), i)
  {
    t.pmm.UsedIsNotFree();
    ghost var free := t.pmm.free;
    r := t.Create(pid, w, h);
    if r.Created? {
      var s := t.surfaces[r.slot];
      ghost var ss := t.surfaces[..];
      assert Live(ss, r.slot) && ss[r.slot] == s && Frames(s) <= free;
      hide Owning, LowestRun, FrameBitmap.Valid, FrameBitmap.Used, Frames;
      ghost var slot := t.Destroy(s.id);
      assert slot == Some(r.slot);
      t.pmm.UsedIsNotFree();
      assert t.pmm.free == free;
    }
  }
}
