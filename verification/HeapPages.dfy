/** The page supply of the kernel heap: a window of virtual addresses that grows
    upward from 0xD0000000, one freshly allocated frame behind each page. */
module HeapPages {
  import opened Wrappers
  import opened FrameAllocator
  import opened PageTables

  const HEAP_VIRT_BASE: nat := 0xD000_0000
  const HEAP_FIRST_PAGE: nat := 0xD_0000
  const HEAP_PAGES: nat := 0x3_0000  // up to the end of the address space
  const HEAP_FLAGS: uint32 := 3  // present, writable
  const FRAMES_BELOW_HEAP: nat := 0x1_0000  // 256 MB

  /** Where the kernel stores to a frame: `phys + 0xC0000000`. */
  function DirectAddress(f: nat): uint32
    requires f < FRAMES_TOTAL
  {
    (f * 4096 + 0xC000_0000) % 0x1_0000_0000
  }

  /** The direct map meets the heap window: page k of the window is where the kernel
      looks for frame 0x10000 + k, and for no other frame. */
  lemma DirectMapMeetsHeap(f: nat, k: nat)
    requires f < FRAMES_TOTAL && k < HEAP_PAGES
    ensures DirectAddress(f) == HEAP_VIRT_BASE + 4096 * k <==> f == FRAMES_BELOW_HEAP + k
  {
  }

  /** So frames can be reached beside a heap exactly below 256 MB: from there on the
      address lies in the window, and from 1 GB on it has wrapped. */
  lemma ReachBesideHeap(f: nat)
    requires f < FRAMES_TOTAL
    ensures f < FRAMES_BELOW_HEAP <==>
            DirectAddress(f) == f * 4096 + 0xC000_0000 && DirectAddress(f) < HEAP_VIRT_BASE
    ensures FRAMES_BELOW_HEAP <= f < DIRECT_MAP_FRAMES <==>
            DirectAddress(f) == f * 4096 + 0xC000_0000 && DirectAddress(f) >= HEAP_VIRT_BASE
  {
  }

  /** Why no page was added: no frame is left; a new page table came to lie where the
      direct map does not reach; or the window has grown to the end of the address space. */
  datatype Stop = OutOfFrames | TableOutOfReach(frame: nat) | WindowFull

  datatype Pages = Pages(base: nat) | NoPages(why: Stop)

  /** What growing the window draws on: the free frames, where the allocator looks next
      and below which frame a table must lie, the kernel directory's slots without a page
      table, and the next page. */
  datatype Supply = Supply(free: set<int>, hint: nat, reach: nat, absent: set<nat>, page: nat)

  /** k frames taken from the allocator, one after another, leave these free. */
  ghost predicate Drawn(free: set<int>, hint: nat, k: nat, after: set<int>, next: nat)
    decreases k
  {
    if k == 0 then after == free && next == hint
    else exists own: nat :: FirstFreeFrom(free, hint, own) && Drawn(free - {own}, own + 1, k - 1, after, next)
  }

  /** The frame the allocator gives after k others. */
  ghost predicate GivenAfter(free: set<int>, hint: nat, k: nat, f: int) {
    exists after: set<int>, next: nat :: Drawn(free, hint, k, after, next) && FirstFreeFrom(after, next, f)
  }

  lemma DrawnFirst(free: set<int>, hint: nat, k: nat, after: set<int>, next: nat) returns (own: nat)
    requires Drawn(free, hint, k, after, next) && k > 0
    ensures FirstFreeFrom(free, hint, own) && Drawn(free - {own}, own + 1, k - 1, after, next)
  {
    own :| FirstFreeFrom(free, hint, own) && Drawn(free - {own}, own + 1, k - 1, after, next);
  }

  lemma DrawnNext(free: set<int>, hint: nat, own: nat, k: nat, after: set<int>, next: nat)
    requires FirstFreeFrom(free, hint, own) && Drawn(free - {own}, own + 1, k, after, next)
    ensures Drawn(free, hint, k + 1, after, next)
  {
    hide FirstFreeFrom;
  }

  lemma NoneDrawn(free: set<int>, hint: nat, after: set<int>, next: nat)
    ensures Drawn(free, hint, 0, after, next) <==> after == free && next == hint
  {
  }

  lemma {:induction false} DrawnOnward(free: set<int>, hint: nat, k: nat, mid: set<int>, at: nat, m: nat,
                                       after: set<int>, next: nat)
    requires Drawn(free, hint, k, mid, at) && Drawn(mid, at, m, after, next)
    ensures Drawn(free, hint, k + m, after, next)
    decreases k
  {
    hide *;
    if k == 0 {
      NoneDrawn(free, hint, mid, at);
    } else {
      var own := DrawnFirst(free, hint, k, mid, at);
      DrawnOnward(free - {own}, own + 1, k - 1, mid, at, m, after, next);
      DrawnNext(free, hint, own, k - 1 + m, after, next);
    }
  }

  lemma {:induction false} DrawnSize(free: set<int>, hint: nat, k: nat, after: set<int>, next: nat)
    requires Drawn(free, hint, k, after, next)
    ensures after <= free && |after| + k == |free|
    decreases k
  {
    hide Drawn;
    if k == 0 {
      NoneDrawn(free, hint, after, next);
    } else {
      var own := DrawnFirst(free, hint, k, after, next);
      DrawnSize(free - {own}, own + 1, k - 1, after, next);
    }
  }

  lemma OneDrawn(free: set<int>, hint: nat, own: nat)
    requires FirstFreeFrom(free, hint, own)
    ensures Drawn(free, hint, 1, free - {own}, own + 1)
  {
    hide *;
    NoneDrawn(free - {own}, own + 1, free - {own}, own + 1);
    DrawnNext(free, hint, own, 0, free - {own}, own + 1);
  }

  /** The slots that need a table before the next n pages are mapped. */
  ghost function NewTables(s: Supply, n: nat): set<nat> {
    set i | i in s.absent && n > 0 && s.page / 1024 <= i <= (s.page + n - 1) / 1024
  }

  /** Frames n more pages take: one behind each page, and one for each new table. */
  ghost function FramesNeeded(s: Supply, n: nat): nat {
    n + |NewTables(s, n)|
  }

  /** The page after the next i needs a table none of those i has brought. */
  ghost predicate NeedsTable(s: Supply, i: nat) {
    (s.page + i) / 1024 in s.absent - NewTables(s, i)
  }

  /** f is the frame given for that table. */
  ghost predicate TableTurn(s: Supply, i: nat, f: int) {
    GivenAfter(s.free, s.hint, FramesNeeded(s, i) + 1, f)
  }

  /** From `was`, exactly n pages were added, with their tables in reach. */
  ghost predicate Grew(s: Supply, was: Supply, n: nat) {
    && s.page == was.page + n && s.absent == was.absent - NewTables(was, n) && s.reach == was.reach
    && Drawn(was.free, was.hint, FramesNeeded(was, n), s.free, s.hint)
    && forall i {:trigger NeedsTable(was, i)} :: 0 <= i < n && NeedsTable(was, i) ==> InReach(was, i)
  }

  ghost predicate InReach(s: Supply, i: nat) {
    exists f: nat :: f < s.reach && TableTurn(s, i, f)
  }

  /** A reason not to add n pages: too few frames are free; one of the pages needs a new
      table, and the frame whose turn it then is lies out of reach; or the window ends
      before the n-th page. */
  ghost predicate Refuses(s: Supply, why: Stop, n: nat) {
    match why
    case OutOfFrames => |s.free| < FramesNeeded(s, n)
    case TableOutOfReach(f) =>
      f >= s.reach && f in s.free && exists i: nat :: i < n && NeedsTable(s, i) && TableTurn(s, i, f)
    case WindowFull => s.page + n > 0x10_0000
  }

  /** The page after the next n needs a table exactly if its slot has none and none of
      the n pages already brought it. */
  lemma OneMoreTable(s: Supply, n: nat)
    ensures var i := (s.page + n) / 1024;
            && NewTables(s, n + 1) == NewTables(s, n) + (if i in s.absent then {i} else {})
            && FramesNeeded(s, n + 1)
               == FramesNeeded(s, n) + 1 + (if i in s.absent - NewTables(s, n) then 1 else 0)
  {
    var i := (s.page + n) / 1024;
    assert NewTables(s, n + 1) == NewTables(s, n) + (if i in s.absent then {i} else {});
    if i in NewTables(s, n) {
      assert NewTables(s, n + 1) == NewTables(s, n);
    }
  }

  /** Slots of neighbouring pages are the same or neighbours. */
  lemma SlotSteps(page: nat, n: nat, m: nat)
    requires n > 0 && m > 0
    ensures page / 1024 <= (page + n - 1) / 1024 <= (page + n) / 1024 <= (page + n + m - 1) / 1024
    ensures (page + n) / 1024 <= (page + n - 1) / 1024 + 1
  {
  }

  /** Tables brought for n pages are not counted again for the m pages after them. */
  lemma NewTablesSplit(s: Supply, mid: Supply, n: nat, m: nat)
    requires mid.page == s.page + n && mid.absent == s.absent - NewTables(s, n)
    ensures NewTables(s, n + m) == NewTables(s, n) + NewTables(mid, m) && NewTables(s, n) !! NewTables(mid, m)
    ensures FramesNeeded(s, n + m) == FramesNeeded(s, n) + FramesNeeded(mid, m)
  {
    if n > 0 && m > 0 {
      SlotSteps(s.page, n, m);
      SplitMembers(s, mid, n, m);
    } else {
      assert NewTables(s, 0) == {} && NewTables(mid, 0) == {};
    }
  }

  lemma SplitMembers(s: Supply, mid: Supply, n: nat, m: nat)
    requires mid.page == s.page + n && mid.absent == s.absent - NewTables(s, n) && n > 0 && m > 0
    ensures NewTables(s, n + m) == NewTables(s, n) + NewTables(mid, m) && NewTables(s, n) !! NewTables(mid, m)
  {
    SlotSteps(s.page, n, m);
    forall i: nat
      ensures i in NewTables(s, n + m) <==> i in NewTables(s, n) + NewTables(mid, m)
    {
    }
  }

  lemma OnePageNeeds(s: Supply)
    ensures NewTables(s, 1) == if s.page / 1024 in s.absent then {s.page / 1024} else {}
    ensures FramesNeeded(s, 1) == if s.page / 1024 in s.absent then 2 else 1
  {
    assert NewTables(s, 0) == {};
    OneMoreTable(s, 0);
  }

  lemma NothingGrewYet(s: Supply)
    ensures Grew(s, s, 0)
  {
    assert NewTables(s, 0) == {} && FramesNeeded(s, 0) == 0;
  }

  lemma GrewMeans(s: Supply, was: Supply, n: nat)
    requires Grew(s, was, n)
    ensures s.free <= was.free && |s.free| + FramesNeeded(was, n) == |was.free|
  {
    hide FramesNeeded;
    DrawnSize(was.free, was.hint, FramesNeeded(was, n), s.free, s.hint);
  }

  /** Growing by n pages and then by m is growing by n + m. */
  lemma GrewOnward(s: Supply, mid: Supply, was: Supply, n: nat, m: nat)
    requires Grew(mid, was, n) && Grew(s, mid, m)
    ensures Grew(s, was, n + m)
  {
    hide NewTables, FramesNeeded, Drawn, NeedsTable, TableTurn;
    NewTablesSplit(was, mid, n, m);
    DrawnOnward(was.free, was.hint, FramesNeeded(was, n), mid.free, mid.hint, FramesNeeded(mid, m), s.free, s.hint);
    forall i: nat | i < n + m && NeedsTable(was, i)
      ensures InReach(was, i)
    {
      if i >= n {
        SameNeed(mid, was, n, i - n);
        var f: nat :| f < mid.reach && TableTurn(mid, i - n, f);
        TurnOnward(mid, was, n, i - n, f);
      }
    }
  }

  /** What refuses m pages after n of them, and any more, refused all of them at first. */
  lemma RefusedOnward(mid: Supply, was: Supply, why: Stop, n: nat, m: nat, more: nat)
    requires Grew(mid, was, n) && Refuses(mid, why, m) && n + m <= more
    ensures Refuses(was, why, more)
  {
    hide NewTables, FramesNeeded, Drawn, NeedsTable, TableTurn;
    GrewMeans(mid, was, n);
    match why
    case OutOfFrames =>
      NewTablesSplit(was, mid, n, m);
      MorePagesNeedMore(was, n + m, more);
    case TableOutOfReach(f) =>
      var i: nat :| i < m && NeedsTable(mid, i) && TableTurn(mid, i, f);
      SameNeed(mid, was, n, i);
      TurnOnward(mid, was, n, i, f);
      assert n + i < more;
    case WindowFull =>
  }

  lemma SameNeed(mid: Supply, was: Supply, n: nat, i: nat)
    requires Grew(mid, was, n)
    ensures NeedsTable(was, n + i) <==> NeedsTable(mid, i)
  {
    hide NewTables, FramesNeeded, Drawn;
    NewTablesSplit(was, mid, n, i);
  }

  /** The turn of a frame, counted from the start. */
  lemma TurnOnward(mid: Supply, was: Supply, n: nat, i: nat, f: int)
    requires Grew(mid, was, n) && TableTurn(mid, i, f)
    ensures TableTurn(was, n + i, f)
  {
    hide NewTables, FramesNeeded, Drawn, FirstFreeFrom;
    NewTablesSplit(was, mid, n, i);
    var k := FramesNeeded(mid, i) + 1;
    var after: set<int>, next: nat :| Drawn(mid.free, mid.hint, k, after, next) && FirstFreeFrom(after, next, f);
    DrawnOnward(was.free, was.hint, FramesNeeded(was, n), mid.free, mid.hint, k, after, next);
  }

  /** The allocator leaves no choice. */
  lemma {:induction false} DrawnUnique(free: set<int>, hint: nat, k: nat, a: set<int>, x: nat, b: set<int>, y: nat)
    requires Drawn(free, hint, k, a, x) && Drawn(free, hint, k, b, y)
    requires forall f :: f in free ==> 0 <= f < FRAMES_TOTAL
    ensures a == b && x == y
    decreases k
  {
    hide Drawn;
    if k == 0 {
      NoneDrawn(free, hint, a, x);
      NoneDrawn(free, hint, b, y);
    } else {
      var f := DrawnFirst(free, hint, k, a, x);
      var g := DrawnFirst(free, hint, k, b, y);
      DistanceInjective(hint, f, g);
      DrawnUnique(free - {f}, f + 1, k - 1, a, x, b, y);
    }
  }

  lemma TurnUnique(s: Supply, i: nat, f: int, g: int)
    requires TableTurn(s, i, f) && TableTurn(s, i, g) && forall x :: x in s.free ==> 0 <= x < FRAMES_TOTAL
    ensures f == g
  {
    hide FramesNeeded, Drawn;
    var k := FramesNeeded(s, i) + 1;
    var a: set<int>, x: nat :| Drawn(s.free, s.hint, k, a, x) && FirstFreeFrom(a, x, f);
    var b: set<int>, y: nat :| Drawn(s.free, s.hint, k, b, y) && FirstFreeFrom(b, y, g);
    DrawnUnique(s.free, s.hint, k, a, x, b, y);
    DrawnSize(s.free, s.hint, k, a, x);
    DistanceInjective(x, f, g);
  }

  /** Pages that were added could not have been refused. */
  lemma GrewIsNotRefused(s: Supply, was: Supply, n: nat, why: Stop)
    requires Grew(s, was, n) && s.page <= 0x10_0000 && forall f :: f in was.free ==> 0 <= f < FRAMES_TOTAL
    ensures !Refuses(was, why, n)
  {
    GrewMeans(s, was, n);
    hide NewTables, FramesNeeded, Drawn, NeedsTable, TableTurn;
    if why.TableOutOfReach? && Refuses(was, why, n) {
      var i: nat :| i < n && NeedsTable(was, i) && TableTurn(was, i, why.frame);
      var f: nat :| f < was.reach && TableTurn(was, i, f);
      TurnUnique(was, i, f, why.frame);
    }
  }

  lemma {:induction false} MorePagesNeedMore(s: Supply, n: nat, more: nat)
    requires n <= more
    ensures NewTables(s, n) <= NewTables(s, more) && FramesNeeded(s, n) <= FramesNeeded(s, more)
    decreases more
  {
    if n < more {
      MorePagesNeedMore(s, n, more - 1);
      OneMoreTable(s, more - 1);
    }
  }

  /** However few slots have tables, n pages in a row meet no more slots than this. */
  lemma {:induction false} EnoughFrames(s: Supply, n: nat)
    requires n > 0
    ensures n <= FramesNeeded(s, n) <= n + (s.page + n - 1) / 1024 - s.page / 1024 + 1
    decreases n
  {
    OneMoreTable(s, n - 1);
    if n == 1 {
      assert NewTables(s, 0) == {};
    } else {
      EnoughFrames(s, n - 1);
      if (s.page + n - 1) / 1024 == (s.page + n - 2) / 1024 {
        assert (s.page + n - 1) / 1024 !in s.absent - NewTables(s, n - 1);
      }
    }
  }

  /** The first 32 pages of the window lie in one slot. */
  lemma BootNeeds(s: Supply)
    requires s.page == HEAP_FIRST_PAGE
    ensures FramesNeeded(s, 32) == if 832 in s.absent then 33 else 32
  {
    assert NewTables(s, 32) == if 832 in s.absent then {832} else {};
  }

  /** With every free frame in reach, n pages are refused exactly for want of frames or
      of window. */
  lemma RefusedForWantOnly(s: Supply, n: nat)
    requires forall f :: f in s.free ==> f < s.reach
    ensures (exists why :: Refuses(s, why, n))
       <==> |s.free| < FramesNeeded(s, n) || s.page + n > 0x10_0000
  {
    if |s.free| < FramesNeeded(s, n) {
      assert Refuses(s, OutOfFrames, n);
    } else if s.page + n > 0x10_0000 {
      assert Refuses(s, WindowFull, n);
    }
  }

  /** Behind the n pages that were added are frames that were free, as are those of the
      tables that were; the pages before them are untouched. */
  ghost predicate Extends(backing: seq<nat>, tables: set<nat>, were: seq<nat>, wereTables: set<nat>,
                          wereFree: set<int>, n: nat) {
    && |backing| == |were| + n && backing[..|were|] == were
    && (forall k :: |were| <= k < |backing| ==> backing[k] in wereFree)
    && (forall f :: f in tables ==> f in wereTables || f in wereFree)
  }

  lemma ExtendsOnward(b: seq<nat>, t: set<nat>, mid: seq<nat>, midTables: set<nat>, midFree: set<int>,
                      were: seq<nat>, wereTables: set<nat>, wereFree: set<int>, n: nat, m: nat)
    requires Extends(mid, midTables, were, wereTables, wereFree, n)
    requires Extends(b, t, mid, midTables, midFree, m) && midFree <= wereFree
    ensures Extends(b, t, were, wereTables, wereFree, n + m)
  {
    assert forall k :: 0 <= k < |mid| ==> b[k] == b[..|mid|][k] == mid[k];
    assert b[..|were|] == mid[..|were|];
  }

  /** The frame for a new table is the allocator's next after the page's own. */
  ghost predicate TableFrame(free: set<int>, hint: nat, f: int) {
    exists own: nat :: FirstFreeFrom(free, hint, own) && FirstFreeFrom(free - {own}, own + 1, f)
  }

  /** What mapping the next page does to the supply, its own frame already taken. */
  ghost predicate Mapped(mid: Supply, s: Supply, hint: nat, reach: nat, r: Grant) {
    var slot := mid.page / 1024;
    && (r.NoFrame? <==> slot in mid.absent && mid.free == {})
    && (r.OutOfReach? ==> slot in mid.absent)
    && (slot in mid.absent && !r.NoFrame? ==>
          FirstFreeFrom(mid.free, hint, r.frame) && (r.OutOfReach? <==> r.frame >= reach))
    && (r.Granted? ==>
          && s.page == mid.page + 1 && s.absent == mid.absent - {slot} && s.reach == mid.reach == reach
          && s.free == (if slot in mid.absent then mid.free - {r.frame} else mid.free)
          && s.hint == (if slot in mid.absent then r.frame + 1 else hint))
  }

  function Reason(r: Grant): Stop
    requires !r.Granted?
  {
    if r.NoFrame? then OutOfFrames else TableOutOfReach(r.frame)
  }

  lemma PageOutcome(was: Supply, mid: Supply, s: Supply, first: nat, hint: nat, reach: nat, own: nat, r: Grant)
    requires FirstFreeFrom(was.free, first, own) && hint == own + 1 && was.hint == first && was.reach == reach
    requires mid == was.(free := was.free - {own}, hint := hint)
    requires Mapped(mid, s, hint, reach, r)
    ensures r.Granted? ==> Grew(s, was, 1)
    ensures r.Granted? && NewTables(was, 1) != {} ==> exists pt :: TableFrame(was.free, first, pt) && pt < reach
    ensures !r.Granted? ==> Refuses(was, Reason(r), 1)
    ensures r.NoFrame? <==> |was.free| < FramesNeeded(was, 1)
    ensures r.OutOfReach? ==> TableFrame(was.free, first, r.frame)
    ensures |was.free| >= 2 && (forall f :: f in was.free ==> f < reach) ==> r.Granted?
  {
    hide NewTables, FramesNeeded, Drawn, NeedsTable, TableTurn, TableFrame, Grew, Refuses;
    OnePageNeeds(was);
    assert |mid.free| == |was.free| - 1 && own in was.free;
    if r.NoFrame? {
      assert Refuses(was, OutOfFrames, 1) by { OutOfFramesIs(was); }
    } else if was.page / 1024 in was.absent {
      assert r.frame in mid.free && |mid.free - {r.frame}| == |mid.free| - 1;
      FirstTurn(was, own, r.frame);
      if r.Granted? { TableAndPage(s, was, own, r.frame); } else { OutOfReachIs(was, r.frame); }
    } else {
      JustPage(s, was, own);
    }
  }

  lemma EarlyStops(s: Supply)
    ensures s.free == {} ==> Refuses(s, OutOfFrames, 1) && |s.free| < FramesNeeded(s, 1) && |s.free| == 0
    ensures s.page == 0x10_0000 ==> Refuses(s, WindowFull, 1)
  {
    OnePageNeeds(s);
    hide NewTables, FramesNeeded;
  }

  lemma OutOfFramesIs(s: Supply)
    requires |s.free| < FramesNeeded(s, 1)
    ensures Refuses(s, OutOfFrames, 1)
  {
  }

  lemma OutOfReachIs(s: Supply, f: nat)
    requires f >= s.reach && f in s.free && NeedsTable(s, 0) && TableTurn(s, 0, f)
    ensures Refuses(s, TableOutOfReach(f), 1)
  {
    hide NeedsTable, TableTurn;
  }

  /** The first page's table is due right after the page's own frame. */
  lemma FirstTurn(s: Supply, own: nat, f: nat)
    requires FirstFreeFrom(s.free, s.hint, own) && FirstFreeFrom(s.free - {own}, own + 1, f)
    ensures TableFrame(s.free, s.hint, f) && TableTurn(s, 0, f)
    ensures NeedsTable(s, 0) <==> s.page / 1024 in s.absent
    ensures Drawn(s.free, s.hint, 2, s.free - {own} - {f}, f + 1)
  {
    assert NewTables(s, 0) == {} && FramesNeeded(s, 0) == 0;
    hide Drawn, FirstFreeFrom, TableFrame, GivenAfter;
    TwoDrawn(s.free, s.hint, own, f);
  }

  lemma TableAndPage(s: Supply, was: Supply, own: nat, f: nat)
    requires was.page / 1024 in was.absent && f < was.reach && TableTurn(was, 0, f)
    requires Drawn(was.free, was.hint, 2, was.free - {own} - {f}, f + 1)
    requires s == Supply(was.free - {own} - {f}, f + 1, was.reach, was.absent - {was.page / 1024}, was.page + 1)
    ensures Grew(s, was, 1)
  {
    hide NewTables, FramesNeeded, Drawn, NeedsTable, TableTurn;
    OnePageNeeds(was);
  }

  lemma JustPage(s: Supply, was: Supply, own: nat)
    requires was.page / 1024 !in was.absent && FirstFreeFrom(was.free, was.hint, own)
    requires s == Supply(was.free - {own}, own + 1, was.reach, was.absent - {was.page / 1024}, was.page + 1)
    ensures Grew(s, was, 1)
  {
    assert NewTables(was, 0) == {};
    assert !NeedsTable(was, 0) && was.absent - {was.page / 1024} == was.absent;
    hide NewTables, FramesNeeded, Drawn, NeedsTable;
    OnePageNeeds(was);
    OneDrawn(was.free, was.hint, own);
  }

  lemma TwoDrawn(free: set<int>, hint: nat, own: nat, f: nat)
    requires FirstFreeFrom(free, hint, own) && FirstFreeFrom(free - {own}, own + 1, f)
    ensures TableFrame(free, hint, f) && GivenAfter(free, hint, 1, f)
    ensures Drawn(free, hint, 2, free - {own} - {f}, f + 1)
    ensures f in free - {own}
  {
    OneDrawn(free, hint, own);
    OneDrawn(free - {own}, own + 1, f);
    hide Drawn;
    DrawnOnward(free, hint, 1, free - {own}, own + 1, 1, free - {own} - {f}, f + 1);
  }

  class HeapWindow {
    const vm: AddressSpaces
    var cursor: nat
    ghost var backing: seq<nat>  // the frame behind each page of the window

    /** Frames behind the window are nobody else's: not free, not a directory, not a
        page table, and not behind another page. */
    ghost predicate BackingIsOwned()
      reads this`backing, vm`dirs, vm`tables, vm.pmm`free
    {
      && (forall k :: 0 <= k < |backing| ==>
            backing[k] < FRAMES_TOTAL
            && backing[k] !in vm.pmm.free && backing[k] !in vm.dirs && backing[k] !in vm.tables)
      && (forall j, k :: 0 <= j < k < |backing| ==> backing[j] != backing[k])
    }

    /** Directories and tables stay below the window in the direct map; the frames
        behind the window may be any. */
    ghost predicate Valid()
      reads this, vm, vm.pmm, vm.pmm.bitmap, vm.ram
    {
      && vm.Valid() && vm.kernelPd in vm.dirs && vm.reach <= FRAMES_BELOW_HEAP
      && |backing| <= HEAP_PAGES && cursor == HEAP_VIRT_BASE + 4096 * |backing|
      && BackingIsOwned()
      && PagesAreBacked()
    }

    /** Page k of the window is mapped, writable, to its own frame. */
    ghost predicate PagesAreBacked()
      reads this`backing, vm`dirs, vm`tables, vm`kernelPd, vm.ram
      requires vm.Structured() && vm.kernelPd in vm.dirs && |backing| <= HEAP_PAGES
    {
      forall k {:trigger backing[k]} :: 0 <= k < |backing| ==>
        && backing[k] < FRAMES_TOTAL
        && vm.Lookup(vm.kernelPd, HEAP_FIRST_PAGE + k) == Some(PageEntry(backing[k] * 4096, HEAP_FLAGS))
    }

    constructor (vm: AddressSpaces)
      requires vm.Valid() && vm.kernelPd in vm.dirs && vm.reach <= FRAMES_BELOW_HEAP
      ensures Valid() && this.vm == vm && cursor == HEAP_VIRT_BASE && backing == []
    {
      this.vm := vm;
      cursor, backing := HEAP_VIRT_BASE, [];
    }

    /** Once page k is in use, a store through the direct map to frame 0x10000 + k lands
        in the frame behind that page, another one unless they happen to coincide. */
    lemma HeapShadowsFrame(k: nat)
      requires Valid() && k < |backing|
      ensures vm.Lookup(vm.kernelPd, DirectAddress(FRAMES_BELOW_HEAP + k) / 4096)
           == Some(PageEntry(backing[k] * 4096, HEAP_FLAGS))
      ensures EntryFrame(PageEntry(backing[k] * 4096, HEAP_FLAGS)) == backing[k]
      ensures vm.Writable(vm.kernelPd, DirectAddress(FRAMES_BELOW_HEAP + k) / 4096)
              && !vm.UserReachable(vm.kernelPd, DirectAddress(FRAMES_BELOW_HEAP + k) / 4096)
    {
      PageEntryFields(backing[k] * 4096, HEAP_FLAGS);
      DirectMapMeetsHeap(FRAMES_BELOW_HEAP + k, k);
    }

    /** What the window can draw on now. */
    ghost function Stock(): (s: Supply)
      reads this`cursor, vm`dirs, vm`kernelPd, vm.ram, vm.pmm`free, vm.pmm`lastAlloc
      requires vm.ram.Length0 == FRAMES_TOTAL && vm.ram.Length1 == ENTRIES && vm.kernelPd < FRAMES_TOTAL
    {
      Supply(vm.pmm.free, vm.pmm.lastAlloc, vm.reach, (set i: nat | i < ENTRIES && !Present(vm.Word(vm.kernelPd, i))), cursor / 4096)
    }

    /** A frame from the allocator; no translation depends on it. */
    method TakeFrame() returns (r: Option<nat>)
      requires Valid()
      modifies vm.pmm, vm.pmm.bitmap
      ensures Valid() && (r.None? <==> old(vm.pmm.free) == {})
      ensures r.None? ==> vm.pmm.free == {}
      ensures backing == old(backing) && cursor == old(cursor)
      ensures r.Some? ==> r.value < FRAMES_TOTAL && r.value in old(vm.pmm.free) && vm.pmm.lastAlloc == r.value + 1
                          && FirstFreeFrom(old(vm.pmm.free), old(vm.pmm.lastAlloc), r.value)
                          && vm.pmm.free == old(vm.pmm.free) - {r.value}
    {
      var frame := vm.pmm.AllocFrame();
      if frame.None? { return None; }
      return Some(FrameOf(frame.value));
    }

    /** Maps the next page to a frame just taken. */
    method MapNext(own: nat) returns (r: Grant)
      requires Valid() && cursor < 0x1_0000_0000 && own < FRAMES_TOTAL
      requires own !in vm.pmm.free && own !in vm.dirs && own !in vm.tables && own !in backing
      modifies this, vm`tables, vm.pmm, vm.pmm.bitmap, vm.ram
      ensures r.Granted? ==> Valid() && cursor == old(cursor) + 4096 && backing == old(backing) + [own]
      ensures r.Granted? ==> forall f :: f in vm.tables ==> f in old(vm.tables) || f in old(vm.pmm.free)
      ensures Mapped(old(Stock()), Stock(), old(vm.pmm.lastAlloc), vm.reach, r)
    {
      var vaddr := cursor;
      assert vaddr / 4096 == HEAP_FIRST_PAGE + |backing|;
      assert vm.SharesTable(vm.kernelPd, vm.kernelPd, vaddr / 4096 / 1024);
      hide AddressSpaces.Valid, AddressSpaces.Lookup, AddressSpaces.SharesTable, AddressSpaces.UserReachable;
      hide AddressSpaces.Writable, FrameBitmap.Valid, PageEntry, FirstFreeFrom;
      r := vm.MapPage(vm.kernelPd, vaddr, own * 4096, HEAP_FLAGS);
      if r.Granted? {
        cursor, backing := cursor + 4096, backing + [own];
      }
    }

    /** One page more. Past the last page the cursor has wrapped to 0 and the source goes
        on at the bottom of the address space; the model stops there. */
    method AllocPage() returns (stop: Option<Stop>)
      requires Valid()
      modifies this, vm`tables, vm.pmm, vm.pmm.bitmap, vm.ram
      ensures stop.None? ==>
                && Valid() && cursor == old(cursor) + 4096
                && Grew(Stock(), old(Stock()), 1) && vm.pmm.free <= old(vm.pmm.free)
                && Extends(backing, vm.tables.Keys, old(backing), old(vm.tables.Keys), old(vm.pmm.free), 1)
                && FirstFreeFrom(old(vm.pmm.free), old(vm.pmm.lastAlloc), backing[|old(backing)|])
      ensures stop.None? && NewTables(old(Stock()), 1) != {} ==>
                exists pt :: TableFrame(old(vm.pmm.free), old(vm.pmm.lastAlloc), pt) && pt < vm.reach
      ensures stop.Some? ==> Refuses(old(Stock()), stop.value, 1)
      ensures stop == Some(WindowFull) <==> old(cursor) == 0x1_0000_0000
      ensures old(cursor) < 0x1_0000_0000 ==>
                (stop == Some(OutOfFrames) <==> |old(vm.pmm.free)| < FramesNeeded(old(Stock()), 1))
      ensures old(cursor) < 0x1_0000_0000 && |old(vm.pmm.free)| >= 2 ==>
                (forall f :: f in old(vm.pmm.free) ==> f < vm.reach) ==> stop.None?
      ensures stop.Some? && stop.value.TableOutOfReach? ==>
                TableFrame(old(vm.pmm.free), old(vm.pmm.lastAlloc), stop.value.frame)
    {
      ghost var was := Stock();
      assert was.page == cursor / 4096 && was.free == vm.pmm.free && was.hint == vm.pmm.lastAlloc && was.reach == vm.reach;
      EarlyStops(was);
      if cursor == 0x1_0000_0000 { return Some(WindowFull); }
      var frame := TakeFrame();
      hide *;
      if frame.None? { return Some(OutOfFrames); }
      ghost var mid, hint := Stock(), vm.pmm.lastAlloc;
      var mapped := MapNext(frame.value);
      PageOutcome(was, mid, Stock(), old(vm.pmm.lastAlloc), hint, vm.reach, frame.value, mapped);
      return if mapped.Granted? then None else Some(Reason(mapped));
    }

    /** The page after the first i of n. */
    method NextPage(i: nat, ghost n: nat, ghost was: Supply, ghost were: seq<nat>, ghost wereTables: set<nat>,
                    ghost wereFree: set<int>) returns (stop: Option<Stop>)
      requires Valid() && i < n && Grew(Stock(), was, i) && vm.pmm.free <= wereFree
      requires Extends(backing, vm.tables.Keys, were, wereTables, wereFree, i)
      modifies this, vm`tables, vm.pmm, vm.pmm.bitmap, vm.ram
      ensures stop.None? ==>
                && Valid() && cursor == old(cursor) + 4096
                && Grew(Stock(), was, i + 1) && vm.pmm.free <= wereFree
                && Extends(backing, vm.tables.Keys, were, wereTables, wereFree, i + 1)
      ensures stop.Some? ==> Refuses(was, stop.value, n)
    {
      ghost var mid, midBacking, midTables, midFree := Stock(), backing, vm.tables.Keys, vm.pmm.free;
      hide *;
      stop := AllocPage();
      if stop.Some? {
        RefusedOnward(mid, was, stop.value, i, 1, n);
      } else {
        GrewOnward(Stock(), mid, was, i, 1);
        ExtendsOnward(backing, vm.tables.Keys, midBacking, midTables, midFree, were, wereTables, wereFree, i, 1);
      }
    }

    /** n pages in a row; the address of the first. Whatever refuses one of the pages
        refused all n to begin with. */
    method AllocPages(n: nat) returns (r: Pages)
      requires Valid()
      modifies this, vm`tables, vm.pmm, vm.pmm.bitmap, vm.ram
      ensures r.Pages? ==>
                && Valid() && r.base == old(cursor) && cursor == old(cursor) + 4096 * n
                && Grew(Stock(), old(Stock()), n) && vm.pmm.free <= old(vm.pmm.free)
                && Extends(backing, vm.tables.Keys, old(backing), old(vm.tables.Keys), old(vm.pmm.free), n)
      ensures r.NoPages? ==> n > 0 && Refuses(old(Stock()), r.why, n)
    {
      var vaddr := cursor;
      NothingGrewYet(Stock());
      for i := 0 to n
        invariant Valid() && cursor == old(cursor) + 4096 * i
        invariant Grew(Stock(), old(Stock()), i) && vm.pmm.free <= old(vm.pmm.free)
        invariant Extends(backing, vm.tables.Keys, old(backing), old(vm.tables.Keys), old(vm.pmm.free), i)
      {
        hide *;
        var stop := NextPage(i, n, old(Stock()), old(backing), old(vm.tables.Keys), old(vm.pmm.free));
        if stop.Some? { return NoPages(stop.value); }
      }
      return Pages(vaddr);
    }
  }
}
