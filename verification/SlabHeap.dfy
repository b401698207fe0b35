/** The kernel slab allocator: eight size classes with intrusive free lists, and
    whole pages behind a magic header for anything larger. */
module SlabHeap {
  import opened Wrappers
  import opened FrameAllocator
  import opened PageTables
  import opened HeapPages

  const CLASSES: nat := 8
  const SLAB_BYTES: nat := 0x4000  // four pages
  const LARGE_MAGIC: uint32 := 0xDEAD_BEEF
  const ADDRESS_WORDS: nat := 0x4000_0000

  /** Object sizes of the classes. */
  function SlabSize(i: nat): (s: nat)
    requires i < 8
    ensures 8 <= s <= 1024 && s % 8 == 0
  {
    [8, 16, 32, 64, 128, 256, 512, 1024][i]
  }

  /** The sizes are 8 and its doubles. */
  lemma SizesDouble(i: nat)
    requires i < 7
    ensures SlabSize(0) == 8 && SlabSize(i + 1) == 2 * SlabSize(i)
  {
  }

  /** The `total` and `used` statistics are not modelled. */
  datatype Cache = Cache(freeList: nat, objSize: nat)

  // ---------------------------------------------------------------------
  // How the heap window is divided
  // ---------------------------------------------------------------------

  /** A node at depth 0 is the last of its list. */
  datatype State = Live | Free(list: nat, depth: nat) | Header | Dropped

  datatype Cell = Cell(size: nat, state: State)

  /** Cells do not overlap and lie between the heap base and `limit`. */
  ghost predicate Apart(cells: map<nat, Cell>, limit: nat) {
    && (forall a :: a in cells ==>
          HEAP_VIRT_BASE <= a && a % 8 == 0 && cells[a].size >= 8 && a + cells[a].size <= limit)
    && (forall a, b :: a in cells && b in cells && a < b ==> a + cells[a].size <= b)
  }

  /** The free lists, last node first, hold exactly the free cells, once each, and
      every cell is large enough for its list. */
  ghost predicate Filed(cells: map<nat, Cell>, lists: seq<seq<nat>>) {
    && |lists| == CLASSES
    && (forall i, k {:trigger lists[i][k]} :: 0 <= i < CLASSES && 0 <= k < |lists[i]| ==>
          lists[i][k] in cells && cells[lists[i][k]].state == Free(i, k) && cells[lists[i][k]].size >= SlabSize(i))
    && (forall a :: a in cells && cells[a].state.Free? ==>
          var f := cells[a].state;
          f.list < CLASSES && f.depth < |lists[f.list]| && lists[f.list][f.depth] == a)
  }

  function Top(list: seq<nat>): nat {
    if list == [] then 0 else list[|list| - 1]
  }

  lemma AddKeeps(cells: map<nat, Cell>, lists: seq<seq<nat>>, limit: nat, a: nat, c: Cell)
    requires Apart(cells, limit) && Filed(cells, lists)
    requires HEAP_VIRT_BASE <= a && limit <= a && a % 8 == 0 && c.size >= 8 && !c.state.Free?
    ensures a !in cells && Apart(cells[a := c], a + c.size) && Filed(cells[a := c], lists)
  {
  }

  /** Changing states, not sizes, keeps cells apart. */
  lemma RestateKeepsApart(cells: map<nat, Cell>, limit: nat, a: nat, s: State)
    requires Apart(cells, limit) && a in cells
    ensures Apart(cells[a := Cell(cells[a].size, s)], limit)
  {
  }

  lemma PushKeepsFiled(cells: map<nat, Cell>, lists: seq<seq<nat>>, i: nat, a: nat)
    requires Filed(cells, lists) && i < CLASSES && a in cells && !cells[a].state.Free? && cells[a].size >= SlabSize(i)
    ensures Filed(cells[a := Cell(cells[a].size, Free(i, |lists[i]|))], lists[i := lists[i] + [a]])
  {
  }

  lemma PopKeepsFiled(cells: map<nat, Cell>, lists: seq<seq<nat>>, i: nat)
    requires Filed(cells, lists) && i < CLASSES && lists[i] != []
    ensures var a := Top(lists[i]);
            a in cells && Filed(cells[a := Cell(cells[a].size, Live)], lists[i := lists[i][..|lists[i]| - 1]])
  {
  }

  lemma RestateKeepsFiled(cells: map<nat, Cell>, lists: seq<seq<nat>>, a: nat, s: State)
    requires Filed(cells, lists) && a in cells && !cells[a].state.Free? && !s.Free?
    ensures Filed(cells[a := Cell(cells[a].size, s)], lists)
  {
  }

  // ---------------------------------------------------------------------
  // What memory holds
  // ---------------------------------------------------------------------

  function Node(list: seq<nat>, k: nat): nat
    requires k < |list|
  {
    list[k]
  }

  /** Memory threads the list from its head: each node's first word is the address of
      the next node, the last node's is NULL. */
  ghost predicate Threaded(m: seq<uint32>, list: seq<nat>, head: nat) {
    && head == Top(list)
    && forall k {:trigger Node(list, k)} :: 0 <= k < |list| ==>
         && Node(list, k) / 4 < |m| && Node(list, k) % 8 == 0
         && m[Node(list, k) / 4] == if k == 0 then 0 else list[k - 1]
  }

  ghost predicate Linked(m: seq<uint32>, caches: seq<Cache>, lists: seq<seq<nat>>) {
    && |caches| == |lists| == CLASSES
    && forall i {:trigger lists[i]} :: 0 <= i < CLASSES ==> Threaded(m, lists[i], caches[i].freeList)
  }

  ghost predicate HeaderAt(cells: map<nat, Cell>, h: int) {
    h >= 0 && h in cells && cells[h].state == Header
  }

  ghost predicate LiveAt(cells: map<nat, Cell>, p: int) {
    p >= 0 && p in cells && cells[p].state == Live
  }

  /** A header carries the magic number, and the block behind it is live. */
  ghost predicate HeadersHold(m: seq<uint32>, cells: map<nat, Cell>) {
    forall h {:trigger HeaderAt(cells, h)} :: HeaderAt(cells, h) ==>
      && h / 4 < |m| && m[h / 4] == LARGE_MAGIC
      && cells[h].size == 8 && LiveAt(cells, h + 8)
  }

  ghost predicate Sound(m: seq<uint32>, caches: seq<Cache>, cells: map<nat, Cell>, lists: seq<seq<nat>>, limit: nat) {
    && |m| == ADDRESS_WORDS && limit <= 0x1_0000_0000
    && Apart(cells, limit) && Filed(cells, lists)
    && Linked(m, caches, lists) && HeadersHold(m, cells)
  }

  ghost predicate OnlyChanges(m: seq<uint32>, was: seq<uint32>, lo: nat, hi: nat) {
    |m| == |was| && forall w :: 0 <= w < |m| && !(lo <= w < hi) ==> m[w] == was[w]
  }

  /** No node and no header has its word among lo..hi. */
  ghost predicate Clear(cells: map<nat, Cell>, lists: seq<seq<nat>>, lo: nat, hi: nat) {
    && (forall i, k {:trigger Node(lists[i], k)} :: 0 <= i < |lists| && 0 <= k < |lists[i]| ==> !(lo <= Node(lists[i], k) / 4 < hi))
    && (forall h {:trigger HeaderAt(cells, h)} :: HeaderAt(cells, h) ==> !(lo <= h / 4 < hi))
  }

  /** The words of a cell that is neither free nor a header are clear. */
  lemma CellIsClear(cells: map<nat, Cell>, lists: seq<seq<nat>>, limit: nat, a: nat)
    requires Apart(cells, limit) && Filed(cells, lists)
    requires a in cells && !cells[a].state.Free? && !cells[a].state.Header?
    ensures Clear(cells, lists, a / 4, (a + cells[a].size) / 4)
  {
    forall i, k {:trigger Node(lists[i], k)} | 0 <= i < |lists| && 0 <= k < |lists[i]|
      ensures !(a / 4 <= Node(lists[i], k) / 4 < (a + cells[a].size) / 4)
    {
      var b := lists[i][k];
      assert b < a ==> b + cells[b].size <= a;
    }
  }

  lemma WritesKeepThread(m: seq<uint32>, was: seq<uint32>, list: seq<nat>, head: nat, lo: nat, hi: nat)
    requires Threaded(was, list, head) && OnlyChanges(m, was, lo, hi)
    requires forall k {:trigger Node(list, k)} :: 0 <= k < |list| ==> !(lo <= Node(list, k) / 4 < hi)
    ensures Threaded(m, list, head)
  {
  }

  lemma WritesKeepLinked(m: seq<uint32>, was: seq<uint32>, caches: seq<Cache>, lists: seq<seq<nat>>, lo: nat, hi: nat)
    requires Linked(was, caches, lists) && OnlyChanges(m, was, lo, hi)
    requires forall i, k {:trigger Node(lists[i], k)} ::
               0 <= i < |lists| && 0 <= k < |lists[i]| ==> !(lo <= Node(lists[i], k) / 4 < hi)
    ensures Linked(m, caches, lists)
  {
    forall i {:trigger lists[i]} | 0 <= i < CLASSES
      ensures Threaded(m, lists[i], caches[i].freeList)
    {
      assert Threaded(was, lists[i], caches[i].freeList);
      WritesKeepThread(m, was, lists[i], caches[i].freeList, lo, hi);
    }
  }

  lemma WritesKeepLinks(m: seq<uint32>, was: seq<uint32>, caches: seq<Cache>, cells: map<nat, Cell>,
                        lists: seq<seq<nat>>, lo: nat, hi: nat)
    requires Linked(was, caches, lists) && HeadersHold(was, cells)
    requires OnlyChanges(m, was, lo, hi) && Clear(cells, lists, lo, hi)
    ensures Linked(m, caches, lists) && HeadersHold(m, cells)
  {
    WritesKeepLinked(m, was, caches, lists, lo, hi);
  }

  lemma ReplaceList(m: seq<uint32>, caches: seq<Cache>, lists: seq<seq<nat>>, i: nat, list: seq<nat>, head: nat)
    requires Linked(m, caches, lists) && i < CLASSES && Threaded(m, list, head)
    ensures Linked(m, caches[i := caches[i].(freeList := head)], lists[i := list])
  {
    hide Threaded;
  }

  lemma PushKeepsThread(m: seq<uint32>, list: seq<nat>, head: nat, a: nat)
    requires Threaded(m, list, head) && a % 8 == 0 && a / 4 < |m| && m[a / 4] == head
    ensures Threaded(m, list + [a], a)
  {
    var longer := list + [a];
    forall k {:trigger Node(longer, k)} | 0 <= k < |longer|
      ensures Node(longer, k) / 4 < |m| && Node(longer, k) % 8 == 0
              && m[Node(longer, k) / 4] == if k == 0 then 0 else longer[k - 1]
    {
      if k < |list| { assert Node(longer, k) == Node(list, k); }
    }
  }

  lemma PopKeepsThread(m: seq<uint32>, list: seq<nat>, head: nat)
    requires Threaded(m, list, head) && list != []
    ensures head / 4 < |m| && Threaded(m, list[..|list| - 1], m[head / 4])
  {
    var shorter := list[..|list| - 1];
    assert Node(list, |list| - 1) == head;
    assert forall k {:trigger Node(shorter, k)} :: 0 <= k < |shorter| ==> Node(shorter, k) == Node(list, k);
  }

  lemma PushKeepsLinked(m: seq<uint32>, was: seq<uint32>, caches: seq<Cache>, lists: seq<seq<nat>>, i: nat, a: nat)
    requires Linked(was, caches, lists) && i < CLASSES && a % 8 == 0 && a / 4 < |m|
    requires OnlyChanges(m, was, a / 4, a / 4 + 1) && m[a / 4] == caches[i].freeList
    requires forall j, k {:trigger Node(lists[j], k)} :: 0 <= j < |lists| && 0 <= k < |lists[j]| ==>
               !(a / 4 <= Node(lists[j], k) / 4 < a / 4 + 1)
    ensures Linked(m, caches[i := caches[i].(freeList := a)], lists[i := lists[i] + [a]])
  {
    hide Threaded;
    WritesKeepLinked(m, was, caches, lists, a / 4, a / 4 + 1);
    PushKeepsThread(m, lists[i], caches[i].freeList, a);
    ReplaceList(m, caches, lists, i, lists[i] + [a], a);
  }

  lemma PushKeepsHeaders(m: seq<uint32>, was: seq<uint32>, cells: map<nat, Cell>, limit: nat, a: nat, s: State)
    requires HeadersHold(was, cells) && Apart(cells, limit) && a in cells && !cells[a].state.Header? && !s.Header?
    requires !HeaderAt(cells, a - 8)
    requires OnlyChanges(m, was, a / 4, a / 4 + 1)
    ensures HeadersHold(m, cells[a := Cell(cells[a].size, s)])
  {
    var after := cells[a := Cell(cells[a].size, s)];
    assert forall h {:trigger HeaderAt(after, h)} :: HeaderAt(after, h) ==> HeaderAt(cells, h) && h != a && h != a - 8;
  }

  /** Pushing a cell onto a free list. */
  lemma PushKeepsSound(m: seq<uint32>, was: seq<uint32>, caches: seq<Cache>, cells: map<nat, Cell>,
                       lists: seq<seq<nat>>, limit: nat, i: nat, a: nat)
    requires Sound(was, caches, cells, lists, limit) && i < CLASSES
    requires a in cells && (cells[a].state.Live? || cells[a].state.Dropped?) && cells[a].size >= SlabSize(i)
    requires !HeaderAt(cells, a - 8)
    requires OnlyChanges(m, was, a / 4, a / 4 + 1) && a / 4 < |m| && m[a / 4] == caches[i].freeList
    ensures Sound(m, caches[i := caches[i].(freeList := a)], cells[a := Cell(cells[a].size, Free(i, |lists[i]|))],
                  lists[i := lists[i] + [a]], limit)
  {
    assert a % 8 == 0;
    CellIsClear(cells, lists, limit, a);
    assert (a + cells[a].size) / 4 >= a / 4 + 1;
    assert forall j, k {:trigger Node(lists[j], k)} :: 0 <= j < |lists| && 0 <= k < |lists[j]| ==>
      !(a / 4 <= Node(lists[j], k) / 4 < a / 4 + 1);
    hide Linked, HeadersHold, OnlyChanges, Apart, Filed;
    PushKeepsFiled(cells, lists, i, a);
    RestateKeepsApart(cells, limit, a, Free(i, |lists[i]|));
    PushKeepsLinked(m, was, caches, lists, i, a);
    PushKeepsHeaders(m, was, cells, limit, a, Free(i, |lists[i]|));
  }

  /** Handing out the first node of a list. */
  lemma PopKeepsSound(m: seq<uint32>, caches: seq<Cache>, cells: map<nat, Cell>, lists: seq<seq<nat>>, limit: nat, i: nat)
    requires Sound(m, caches, cells, lists, limit) && i < CLASSES && lists[i] != []
    ensures var a := caches[i].freeList;
            && a == Top(lists[i]) && a in cells && a / 4 < |m| && cells[a].state == Free(i, |lists[i]| - 1)
            && cells[a].size >= SlabSize(i)
            && Sound(m, caches[i := caches[i].(freeList := m[a / 4])], cells[a := Cell(cells[a].size, Live)],
                     lists[i := lists[i][..|lists[i]| - 1]], limit)
  {
    var a := Top(lists[i]);
    PopKeepsFiled(cells, lists, i);
    RestateKeepsApart(cells, limit, a, Live);
    assert lists[i][|lists[i]| - 1] == a;
    PopKeepsLinked(m, caches, lists, i);
    hide Linked, Apart, Filed;
    var after := cells[a := Cell(cells[a].size, Live)];
    assert forall h {:trigger HeaderAt(after, h)} :: HeaderAt(after, h) ==> HeaderAt(cells, h);
    assert HeadersHold(m, after);
  }

  lemma PopKeepsLinked(m: seq<uint32>, caches: seq<Cache>, lists: seq<seq<nat>>, i: nat)
    requires Linked(m, caches, lists) && i < CLASSES && lists[i] != []
    ensures Top(lists[i]) == caches[i].freeList && caches[i].freeList / 4 < |m|
    ensures Linked(m, caches[i := caches[i].(freeList := m[caches[i].freeList / 4])],
                   lists[i := lists[i][..|lists[i]| - 1]])
  {
    PopKeepsThread(m, lists[i], caches[i].freeList);
    hide Threaded;
    ReplaceList(m, caches, lists, i, lists[i][..|lists[i]| - 1], m[caches[i].freeList / 4]);
  }

  /** A new cell past everything else. */
  lemma AddKeepsSound(m: seq<uint32>, caches: seq<Cache>, cells: map<nat, Cell>, lists: seq<seq<nat>>, limit: nat,
                      a: nat, c: Cell)
    requires Sound(m, caches, cells, lists, limit)
    requires HEAP_VIRT_BASE <= a && limit <= a && a % 8 == 0 && c.size >= 8 && a + c.size <= 0x1_0000_0000
    requires c.state.Live? || c.state.Dropped?
    ensures a !in cells && Sound(m, caches, cells[a := c], lists, a + c.size)
  {
    AddKeeps(cells, lists, limit, a, c);
    hide Linked, Apart, Filed;
    var after := cells[a := c];
    assert forall h {:trigger HeaderAt(after, h)} :: HeaderAt(after, h) ==> HeaderAt(cells, h);
  }

  /** The two cells of a large block: its header, then what the caller gets. */
  lemma AddLargeKeepsSound(m: seq<uint32>, caches: seq<Cache>, cells: map<nat, Cell>, lists: seq<seq<nat>>, limit: nat,
                           bytes: nat)
    requires Sound(m, caches, cells, lists, limit)
    requires HEAP_VIRT_BASE <= limit && limit % 8 == 0 && bytes >= 16 && limit + bytes <= 0x1_0000_0000
    requires m[limit / 4] == LARGE_MAGIC
    ensures Sound(m, caches, cells[limit := Cell(8, Header)][limit + 8 := Cell(bytes - 8, Live)], lists, limit + bytes)
  {
    AddLargeKeepsHeaders(m, cells, limit, bytes);
    hide Linked, Apart, Filed, HeadersHold;
    AddKeeps(cells, lists, limit, limit, Cell(8, Header));
    AddKeeps(cells[limit := Cell(8, Header)], lists, limit + 8, limit + 8, Cell(bytes - 8, Live));
  }

  lemma AddLargeKeepsHeaders(m: seq<uint32>, cells: map<nat, Cell>, limit: nat, bytes: nat)
    requires HeadersHold(m, cells) && Apart(cells, limit) && bytes >= 16
    requires limit / 4 < |m| && m[limit / 4] == LARGE_MAGIC
    ensures HeadersHold(m, cells[limit := Cell(8, Header)][limit + 8 := Cell(bytes - 8, Live)])
  {
    assert limit !in cells && limit + 8 !in cells;
    var after := cells[limit := Cell(8, Header)][limit + 8 := Cell(bytes - 8, Live)];
    hide Apart;
    assert forall h {:trigger HeaderAt(after, h)} :: HeaderAt(after, h) ==> h == limit || HeaderAt(cells, h);
    assert forall h: int {:trigger LiveAt(after, h)} :: LiveAt(cells, h) ==> LiveAt(after, h);
    assert LiveAt(after, limit + 8);
  }

  /** Writing inside a cell that is neither free nor a header. */
  lemma WriteKeepsSound(m: seq<uint32>, was: seq<uint32>, caches: seq<Cache>, cells: map<nat, Cell>,
                        lists: seq<seq<nat>>, limit: nat, a: nat, lo: nat, hi: nat)
    requires Sound(was, caches, cells, lists, limit)
    requires a in cells && !cells[a].state.Free? && !cells[a].state.Header?
    requires a / 4 <= lo && hi <= (a + cells[a].size) / 4 && OnlyChanges(m, was, lo, hi)
    ensures Sound(m, caches, cells, lists, limit)
  {
    CellIsClear(cells, lists, limit, a);
    hide Apart, Filed, Linked, HeadersHold;
    WritesKeepLinks(m, was, caches, cells, lists, lo, hi);
  }

  /** Cells after a block whose preceding word is the magic number was freed. */
  ghost function AfterDrop(cells: map<nat, Cell>, p: nat): map<nat, Cell>
    requires p in cells && p >= 8
  {
    var dropped := cells[p := Cell(cells[p].size, Dropped)];
    if HeaderAt(cells, p - 8) then dropped[p - 8 := Cell(8, Dropped)] else dropped
  }

  /** A word holding the magic number is no node: it is odd, links are not. */
  lemma MagicIsNoNode(m: seq<uint32>, caches: seq<Cache>, lists: seq<seq<nat>>, w: nat)
    requires Linked(m, caches, lists) && w < |m| && m[w] == LARGE_MAGIC
    ensures forall i, k {:trigger Node(lists[i], k)} :: 0 <= i < |lists| && 0 <= k < |lists[i]| ==>
              Node(lists[i], k) / 4 != w
  {
    forall i, k {:trigger Node(lists[i], k)} | 0 <= i < |lists| && 0 <= k < |lists[i]|
      ensures Node(lists[i], k) / 4 != w
    {
      assert Threaded(m, lists[i], caches[i].freeList);
      if k > 0 { assert Node(lists[i], k - 1) % 8 == 0; }
    }
  }

  lemma DropKeepsSound(m: seq<uint32>, was: seq<uint32>, caches: seq<Cache>, cells: map<nat, Cell>,
                       lists: seq<seq<nat>>, limit: nat, p: nat)
    requires Sound(was, caches, cells, lists, limit)
    requires p in cells && p >= 8 && cells[p].state.Live? && was[(p - 8) / 4] == LARGE_MAGIC
    requires OnlyChanges(m, was, (p - 8) / 4, (p - 8) / 4 + 1)
    ensures Sound(m, caches, AfterDrop(cells, p), lists, limit)
  {
    var w := (p - 8) / 4;
    MagicIsNoNode(was, caches, lists, w);
    WritesKeepLinked(m, was, caches, lists, w, w + 1);
    DropKeepsHeaders(m, was, cells, limit, p);
    hide Linked, HeadersHold;
    RestateKeepsFiled(cells, lists, p, Dropped);
    RestateKeepsApart(cells, limit, p, Dropped);
    if HeaderAt(cells, p - 8) {
      var dropped := cells[p := Cell(cells[p].size, Dropped)];
      RestateKeepsFiled(dropped, lists, p - 8, Dropped);
      RestateKeepsApart(dropped, limit, p - 8, Dropped);
    }
  }

  lemma DropKeepsHeaders(m: seq<uint32>, was: seq<uint32>, cells: map<nat, Cell>, limit: nat, p: nat)
    requires HeadersHold(was, cells) && Apart(cells, limit) && p in cells && p >= 8 && cells[p].state.Live?
    requires OnlyChanges(m, was, (p - 8) / 4, (p - 8) / 4 + 1)
    ensures HeadersHold(m, AfterDrop(cells, p))
    ensures HeaderAt(cells, p - 8) ==> cells[p - 8].size == 8
  {
    var after := AfterDrop(cells, p);
    forall h {:trigger HeaderAt(after, h)} | HeaderAt(after, h)
      ensures h / 4 < |m| && m[h / 4] == LARGE_MAGIC && after[h].size == 8 && LiveAt(after, h + 8)
    {
      assert HeaderAt(cells, h) && h != p - 8;
    }
  }

  // ---------------------------------------------------------------------
  // The allocator
  // ---------------------------------------------------------------------

  function ObjectsPerSlab(obj: nat): nat
    requires obj > 0
  {
    SLAB_BYTES / obj
  }

  function Bytes(n: nat, obj: nat): nat {
    n * obj
  }

  lemma Stride(left: nat, obj: nat)
    requires left >= 1
    ensures Bytes(left, obj) == Bytes(left - 1, obj) + obj
  {
  }

  /** Addresses of the n objects from `base` on. */
  ghost function Objects(base: nat, obj: nat, n: nat): (s: seq<nat>)
    ensures |s| == n
  {
    if n == 0 then [] else Objects(base, obj, n - 1) + [base + Bytes(n - 1, obj)]
  }

  lemma {:induction false} ObjectAt(base: nat, obj: nat, n: nat, k: nat)
    requires k < n
    ensures Objects(base, obj, n)[k] == base + k * obj
  {
    if k < n - 1 { ObjectAt(base, obj, n - 1, k); }
  }

  lemma ObjectsFillTheSlab(i: nat)
    requires i < CLASSES
    ensures Bytes(ObjectsPerSlab(SlabSize(i)), SlabSize(i)) == SLAB_BYTES && ObjectsPerSlab(SlabSize(i)) >= 16
    ensures Bytes(0, SlabSize(i)) == 0
  {
  }

  /** Objects carved past `base` were added, all free; nothing else changed. */
  ghost predicate Grown(cells: map<nat, Cell>, was: map<nat, Cell>, base: nat) {
    && (forall a :: a in was ==> a in cells && cells[a] == was[a])
    && (forall a :: a in cells && a !in was ==> base <= a && cells[a].state.Free?)
  }

  /** Only list i changed, by n objects at `base` and up, the last one first. */
  ghost predicate OnlyListGrows(lists: seq<seq<nat>>, was: seq<seq<nat>>, i: nat, base: nat, n: nat) {
    |was| == CLASSES && i < CLASSES && lists == was[i := was[i] + Objects(base, SlabSize(i), n)]
  }

  /** Same object sizes as before; only free-list heads may differ. */
  ghost predicate SameShapes(caches: seq<Cache>, was: seq<Cache>) {
    |caches| == |was| && forall j :: 0 <= j < |was| ==> caches[j] == was[j].(freeList := caches[j].freeList)
  }

  /** The allocator's state at one moment. */
  datatype Heap = Heap(m: seq<uint32>, caches: seq<Cache>, cells: map<nat, Cell>, lists: seq<seq<nat>>)

  /** From `was`, n objects of class i were carved between `base` and its slab's end. */
  ghost predicate Carved(h: Heap, was: Heap, i: nat, base: nat, n: nat) {
    && SameShapes(h.caches, was.caches) && Grown(h.cells, was.cells, base)
    && OnlyListGrows(h.lists, was.lists, i, base, n)
    && OnlyChanges(h.m, was.m, base / 4, (base + SLAB_BYTES) / 4)
  }

  lemma NothingCarvedYet(h: Heap, i: nat, base: nat)
    requires i < CLASSES && Filed(h.cells, h.lists)
    ensures Carved(h, h, i, base, 0)
  {
    assert h.lists[i] + Objects(base, SlabSize(i), 0) == h.lists[i];
  }

  /** One more object carved at ptr, past everything that was there. */
  lemma CarveStep(h: Heap, mid: Heap, was: Heap, i: nat, base: nat, n: nat, ptr: nat, c: Cell)
    requires Carved(mid, was, i, base, n) && i < |mid.caches| && i < |mid.lists|
    requires ptr !in mid.cells && base <= ptr < base + SLAB_BYTES && base % 8 == 0 && c.state.Free?
    requires ptr == base + Bytes(n, SlabSize(i))
    requires OnlyChanges(h.m, mid.m, ptr / 4, ptr / 4 + 1)
    requires h.caches == mid.caches[i := mid.caches[i].(freeList := ptr)]
    requires h.cells == mid.cells[ptr := c] && h.lists == mid.lists[i := mid.lists[i] + [ptr]]
    ensures Carved(h, was, i, base, n + 1)
  {
    ChangesCompose(h.m, mid.m, was.m, base / 4, (base + SLAB_BYTES) / 4, ptr / 4);
    hide OnlyChanges, SlabSize, Bytes;
    GrowOne(mid.cells, was.cells, base, ptr, c);
    hide Grown;
    var size := SlabSize(i);
    assert was.lists[i] + Objects(base, size, n) + [ptr] == was.lists[i] + Objects(base, size, n + 1);
  }

  lemma GrowOne(cells: map<nat, Cell>, was: map<nat, Cell>, base: nat, ptr: nat, c: Cell)
    requires Grown(cells, was, base) && ptr !in cells && base <= ptr && c.state.Free?
    ensures Grown(cells[ptr := c], was, base)
  {
  }

  lemma ChangesCompose(m: seq<uint32>, mid: seq<uint32>, was: seq<uint32>, lo: nat, hi: nat, w: nat)
    requires OnlyChanges(mid, was, lo, hi) && OnlyChanges(m, mid, w, w + 1) && lo <= w < hi
    ensures OnlyChanges(m, was, lo, hi)
  {
  }

  lemma FrontierFollowsNoHeader(m: seq<uint32>, caches: seq<Cache>, cells: map<nat, Cell>, lists: seq<seq<nat>>, ptr: nat)
    requires Sound(m, caches, cells, lists, ptr)
    ensures ptr !in cells && !HeaderAt(cells, ptr - 8)
  {
  }

  lemma CellEnds(m: seq<uint32>, caches: seq<Cache>, cells: map<nat, Cell>, lists: seq<seq<nat>>, limit: nat, p: nat)
    requires Sound(m, caches, cells, lists, limit) && p in cells
    ensures p % 8 == 0 && p + cells[p].size <= limit <= 0x1_0000_0000
  {
  }

  /** A list head fits a machine word. */
  lemma HeadIsAddress(m: seq<uint32>, caches: seq<Cache>, lists: seq<seq<nat>>, i: nat)
    requires Linked(m, caches, lists) && i < CLASSES && |m| == ADDRESS_WORDS
    ensures caches[i].freeList < 0x1_0000_0000
  {
    assert Threaded(m, lists[i], caches[i].freeList);
    if lists[i] != [] { assert Node(lists[i], |lists[i]| - 1) == caches[i].freeList; }
  }

  // ---------------------------------------------------------------------
  // What an allocation does to the blocks that were live
  // ---------------------------------------------------------------------

  /** Every block that was live still is, with its size; no other block is but p. */
  ghost predicate Gave(h: Heap, was: Heap, p: nat) {
    && LiveAt(h.cells, p) && !LiveAt(was.cells, p)
    && (forall q: nat {:trigger LiveAt(was.cells, q)} :: LiveAt(was.cells, q) ==>
          LiveAt(h.cells, q) && h.cells[q] == was.cells[q])
    && (forall q: nat {:trigger LiveAt(h.cells, q)} :: LiveAt(h.cells, q) ==> q == p || LiveAt(was.cells, q))
  }

  /** Blocks live at both moments hold the same words. */
  ghost predicate LiveDataKept(h: Heap, was: Heap) {
    |h.m| == |was.m| && forall q: nat, w: nat {:trigger LiveAt(was.cells, q), h.m[w]} ::
      LiveAt(was.cells, q) && LiveAt(h.cells, q) && q / 4 <= w < (q + was.cells[q].size) / 4 && w < |h.m| ==>
        h.m[w] == was.m[w]
  }

  lemma RefillGives(h: Heap, was: Heap, i: nat, base: nat, n: nat)
    requires Carved(h, was, i, base, n) && Apart(was.cells, base)
    ensures forall q: nat {:trigger LiveAt(was.cells, q)} :: LiveAt(was.cells, q) ==>
              LiveAt(h.cells, q) && h.cells[q] == was.cells[q]
    ensures forall q: nat {:trigger LiveAt(h.cells, q)} :: LiveAt(h.cells, q) ==> LiveAt(was.cells, q)
    ensures LiveDataKept(h, was)
  {
    forall q: nat, w: nat {:trigger LiveAt(was.cells, q), h.m[w]}
      | LiveAt(was.cells, q) && q / 4 <= w < (q + was.cells[q].size) / 4 && w < |h.m|
      ensures h.m[w] == was.m[w]
    {
      assert q + was.cells[q].size <= base;
    }
  }

  /** Words written inside one cell are in no other cell. */
  lemma WritesStayInCell(h: Heap, was: Heap, limit: nat, p: nat, hi: nat)
    requires Apart(was.cells, limit) && p in was.cells && hi <= (p + was.cells[p].size) / 4
    requires OnlyChanges(h.m, was.m, p / 4, hi)
    ensures forall q: nat, w: nat {:trigger LiveAt(was.cells, q), h.m[w]} ::
              LiveAt(was.cells, q) && q != p && q / 4 <= w < (q + was.cells[q].size) / 4 && w < |h.m| ==>
                h.m[w] == was.m[w]
  {
    forall q: nat, w: nat {:trigger LiveAt(was.cells, q), h.m[w]}
      | LiveAt(was.cells, q) && q != p && q / 4 <= w < (q + was.cells[q].size) / 4 && w < |h.m|
      ensures h.m[w] == was.m[w]
    {
      if q < p { assert q + was.cells[q].size <= p; } else { assert p + was.cells[p].size <= q; }
    }
  }

  lemma TakeGives(h: Heap, was: Heap, limit: nat, p: nat, hi: nat)
    requires Apart(was.cells, limit) && p in was.cells && was.cells[p].state.Free?
    requires hi <= (p + was.cells[p].size) / 4 && OnlyChanges(h.m, was.m, p / 4, hi)
    requires h.cells == was.cells[p := Cell(was.cells[p].size, Live)]
    ensures Gave(h, was, p) && LiveDataKept(h, was)
  {
    WritesStayInCell(h, was, limit, p, hi);
    hide OnlyChanges, Apart;
    assert !LiveAt(was.cells, p);
    assert forall q: nat {:trigger LiveAt(was.cells, q)} :: LiveAt(was.cells, q) ==> LiveAt(h.cells, q);
  }

  lemma RefillThenTakeGives(h: Heap, mid: Heap, was: Heap, p: nat)
    requires forall q: nat {:trigger LiveAt(was.cells, q)} :: LiveAt(was.cells, q) ==>
               LiveAt(mid.cells, q) && mid.cells[q] == was.cells[q]
    requires forall q: nat {:trigger LiveAt(mid.cells, q)} :: LiveAt(mid.cells, q) ==> LiveAt(was.cells, q)
    requires LiveDataKept(mid, was) && Gave(h, mid, p) && LiveDataKept(h, mid)
    ensures Gave(h, was, p) && LiveDataKept(h, was)
  {
    forall q: nat, w: nat {:trigger LiveAt(was.cells, q), h.m[w]}
      | LiveAt(was.cells, q) && q / 4 <= w < (q + was.cells[q].size) / 4 && w < |h.m|
      ensures h.m[w] == was.m[w]
    {
      assert LiveAt(mid.cells, q) && mid.m[w] == was.m[w];
    }
  }

  lemma LargeGives(h: Heap, was: Heap, base: nat, bytes: nat)
    requires Apart(was.cells, base) && base % 8 == 0 && bytes >= 16
    requires OnlyChanges(h.m, was.m, base / 4, base / 4 + 2)
    requires h.cells == was.cells[base := Cell(8, Header)][base + 8 := Cell(bytes - 8, Live)]
    ensures Gave(h, was, base + 8) && LiveDataKept(h, was)
  {
    assert base !in was.cells && base + 8 !in was.cells;
    forall q: nat {:trigger LiveAt(was.cells, q)} | LiveAt(was.cells, q)
      ensures LiveAt(h.cells, q) && h.cells[q] == was.cells[q] && q + was.cells[q].size <= base
    {
    }
  }

  /** The pages a large request takes, on 32-bit arithmetic. */
  function PagesWanted(size: uint32): nat {
    ((size + 8) % 0x1_0000_0000 + 4095) % 0x1_0000_0000 / 4096
  }

  /** A large block holds what was asked for exactly if the rounding does not wrap; then
      it has no page too many, and otherwise hardly any page at all. */
  lemma LargeBlockHoldsRequest(size: uint32)
    ensures PagesWanted(size) * 4096 >= size + 8 <==> size + 8 + 4095 < 0x1_0000_0000
    ensures size + 8 + 4095 < 0x1_0000_0000 ==> 1 <= PagesWanted(size) && (PagesWanted(size) - 1) * 4096 < size + 8
    ensures size + 8 + 4095 >= 0x1_0000_0000 ==> PagesWanted(size) == if size > 0xFFFF_FFF8 then 1 else 0
  {
  }

  /** The smallest class whose objects hold `size` bytes. */
  function ClassOf(size: nat): (c: nat)
    requires size <= 1024
    ensures c < CLASSES && size <= SlabSize(c) && forall j :: 0 <= j < c ==> SlabSize(j) < size
  {
    if size <= 8 then 0 else if size <= 16 then 1 else if size <= 32 then 2 else if size <= 64 then 3
    else if size <= 128 then 4 else if size <= 256 then 5 else if size <= 512 then 6 else 7
  }

  lemma SameHeadsKeepSound(m: seq<uint32>, caches: seq<Cache>, were: seq<Cache>, cells: map<nat, Cell>,
                           lists: seq<seq<nat>>, limit: nat)
    requires Sound(m, were, cells, lists, limit) && |caches| == |were|
    requires forall j :: 0 <= j < |were| ==> caches[j].freeList == were[j].freeList
    ensures Sound(m, caches, cells, lists, limit)
  {
    hide Apart, Filed, HeadersHold, Threaded;
  }

  lemma EmptyListHasNoHead(m: seq<uint32>, caches: seq<Cache>, cells: map<nat, Cell>, lists: seq<seq<nat>>, limit: nat, i: nat)
    requires Sound(m, caches, cells, lists, limit) && i < CLASSES
    ensures |caches| == |lists| == CLASSES && (lists[i] == [] <==> caches[i].freeList == 0)
  {
    assert Threaded(m, lists[i], caches[i].freeList);
    if lists[i] != [] { assert lists[i][|lists[i]| - 1] in cells; }
  }

  /** The block was the head of list i, and only that node left its list. */
  ghost predicate FromList(p: nat, lists: seq<seq<nat>>, were: seq<seq<nat>>, i: nat) {
    && |were| == CLASSES && i < CLASSES && were[i] != []
    && p == Top(were[i]) && lists == were[i := were[i][..|were[i]| - 1]]
  }

  /** The block is the last object of a new slab at `base`, whose other objects are now
      list i; it was empty, the other lists are as before. */
  ghost predicate FromSlab(p: nat, lists: seq<seq<nat>>, were: seq<seq<nat>>, i: nat, base: nat) {
    && |were| == CLASSES && i < CLASSES && were[i] == []
    && p == base + 0x4000 - SlabSize(i)
    && lists == were[i := Objects(base, SlabSize(i), 0x4000 / SlabSize(i) - 1)]
  }

  /** The list of a class refilled when it was empty: its head is the slab's last object. */
  lemma FreshList(h: Heap, was: Heap, i: nat, base: nat)
    requires i < CLASSES && Carved(h, was, i, base, ObjectsPerSlab(SlabSize(i)))
    requires |was.lists| == CLASSES && was.lists[i] == []
    ensures |h.lists| == CLASSES && h.lists[i] != []
    ensures FromSlab(Top(h.lists[i]), h.lists[i := h.lists[i][..|h.lists[i]| - 1]], was.lists, i, base)
  {
    var size := SlabSize(i);
    var n := ObjectsPerSlab(size);
    assert n == 0x4000 / size;
    ObjectsFillTheSlab(i);
    Stride(n, size);
    assert [] + Objects(base, size, n) == Objects(base, size, n);
    assert h.lists == was.lists[i := Objects(base, size, n)];
    hide SlabSize, Carved, Bytes, ObjectsPerSlab;
    var last := base + Bytes(n - 1, size);
    assert h.lists[i] == Objects(base, size, n - 1) + [last];
    assert h.lists[i][..n - 1] == Objects(base, size, n - 1);
  }

  lemma SameSlab(p: nat, lists: seq<seq<nat>>, mid: seq<seq<nat>>, were: seq<seq<nat>>, i: nat, base: nat)
    requires FromList(p, lists, mid, i)
    requires FromSlab(Top(mid[i]), mid[i := mid[i][..|mid[i]| - 1]], were, i, base)
    ensures FromSlab(p, lists, were, i, base)
  {
  }

  lemma CarvedMeans(h: Heap, was: Heap, i: nat, base: nat, n: nat)
    requires Carved(h, was, i, base, n)
    ensures SameShapes(h.caches, was.caches)
  {
  }

  lemma NothingAtFrontier(m: seq<uint32>, was: seq<uint32>, caches: seq<Cache>, cells: map<nat, Cell>,
                          lists: seq<seq<nat>>, base: nat)
    requires Sound(was, caches, cells, lists, base) && base % 8 == 0
    requires OnlyChanges(m, was, base / 4, base / 4 + 2)
    ensures Sound(m, caches, cells, lists, base)
  {
    assert Clear(cells, lists, base / 4, base / 4 + 2) by {
      assert forall h {:trigger HeaderAt(cells, h)} :: HeaderAt(cells, h) ==> h + 8 <= base;
      forall i, k {:trigger Node(lists[i], k)} | 0 <= i < |lists| && 0 <= k < |lists[i]|
        ensures Node(lists[i], k) + 8 <= base
      {
        assert lists[i][k] in cells;
      }
    }
    hide Apart, Filed, Linked, HeadersHold;
    WritesKeepLinks(m, was, caches, cells, lists, base / 4, base / 4 + 2);
  }

  /** Boot has stocked the first n classes; nothing has been handed out. */
  ghost predicate Stocked(h: Heap, n: int) {
    && |h.caches| == |h.lists| == CLASSES
    && (forall a :: a in h.cells ==> h.cells[a].state.Free?)
    && (forall j :: 0 <= j < n && j < CLASSES ==>
          h.caches[j].objSize == SlabSize(j)
          && h.lists[j] == Objects(HEAP_VIRT_BASE + j * 0x4000, SlabSize(j), ObjectsPerSlab(SlabSize(j))))
    && (forall j {:trigger h.lists[j]} :: n <= j < CLASSES && 0 <= j ==> h.lists[j] == [])
  }

  lemma EmptyIsSound(h: Heap)
    requires |h.m| == ADDRESS_WORDS && h.caches == seq(CLASSES, _ => Cache(0, 0)) && h.cells == map[]
    requires h.lists == seq(CLASSES, _ => [])
    ensures Sound(h.m, h.caches, h.cells, h.lists, HEAP_VIRT_BASE) && Stocked(h, 0)
  {
  }

  lemma StockedIsSized(h: Heap)
    requires Stocked(h, CLASSES)
    ensures |h.caches| == CLASSES && forall i :: 0 <= i < CLASSES ==> h.caches[i].objSize == SlabSize(i)
  {
  }

  lemma StockOne(h: Heap, was: Heap, i: nat, base: nat)
    requires Stocked(was, i) && i < CLASSES && base == HEAP_VIRT_BASE + i * 0x4000
    requires Carved(h, was.(caches := was.caches[i := Cache(0, SlabSize(i))]), i, base, ObjectsPerSlab(SlabSize(i)))
    ensures Stocked(h, i + 1)
  {
  }

  /** Where a live block can be, and that its header, if it has one, is intact. */
  lemma LiveBlockPlace(h: Heap, limit: nat, p: nat)
    requires Sound(h.m, h.caches, h.cells, h.lists, limit) && LiveAt(h.cells, p)
    ensures p >= HEAP_VIRT_BASE && p % 8 == 0 && p + h.cells[p].size <= limit && p / 4 < |h.m|
    ensures h.cells[p].size >= 8 && |h.caches| == |h.lists| == CLASSES
    ensures HeaderAt(h.cells, p - 8) ==> h.m[(p - 8) / 4] == LARGE_MAGIC
  {
  }

  /** Word w belongs to a live block other than p. */
  ghost predicate InOtherBlock(cells: map<nat, Cell>, p: nat, w: nat) {
    exists q: nat {:trigger LiveAt(cells, q)} :: q != p && LiveAt(cells, q) && q / 4 <= w < (q + cells[q].size) / 4
  }

  lemma HeaderIsInNoBlock(cells: map<nat, Cell>, limit: nat, p: nat)
    requires Apart(cells, limit) && p >= 8 && HeaderAt(cells, p - 8) && cells[p - 8].size == 8
    ensures !InOtherBlock(cells, p, (p - 8) / 4)
  {
    forall q: nat {:trigger LiveAt(cells, q)} | LiveAt(cells, q) && q < p - 8
      ensures q + cells[q].size <= p - 8
    {
    }
  }

  /** Clearing the word before p spares the other live blocks exactly if it is in none. */
  lemma DropKeepsData(h: Heap, was: Heap, p: nat)
    requires |was.m| == |h.m| && p >= 8 && LiveAt(was.cells, p) && (p - 8) / 4 < |h.m|
    requires was.m[(p - 8) / 4] == LARGE_MAGIC && h.m == was.m[(p - 8) / 4 := 0]
    requires h.cells == AfterDrop(was.cells, p)
    ensures LiveDataKept(h, was) <==> !InOtherBlock(was.cells, p, (p - 8) / 4)
  {
    var w := (p - 8) / 4;
    assert forall q: nat {:trigger LiveAt(h.cells, q)} :: LiveAt(h.cells, q) <==> LiveAt(was.cells, q) && q != p;
    if InOtherBlock(was.cells, p, w) {
      var q: nat :| q != p && LiveAt(was.cells, q) && q / 4 <= w < (q + was.cells[q].size) / 4;
      assert LiveAt(h.cells, q) && h.m[w] != was.m[w];
    }
  }

  /** Linking p into a list writes inside p only. */
  lemma PushKeepsData(h: Heap, was: Heap, limit: nat, p: nat, s: State)
    requires Apart(was.cells, limit) && p in was.cells && OnlyChanges(h.m, was.m, p / 4, p / 4 + 1)
    requires h.cells == was.cells[p := Cell(was.cells[p].size, s)] && s.Free?
    ensures LiveDataKept(h, was)
  {
    WritesStayInCell(h, was, limit, p, p / 4 + 1);
    hide OnlyChanges, Apart;
  }

  /** The node reached from address a by n links. */
  function Follow(m: seq<uint32>, a: nat, n: nat): nat
    decreases n
  {
    if n == 0 || a / 4 >= |m| then a else Follow(m, m[a / 4], n - 1)
  }

  /** Following links walks down the list and off its end. */
  lemma {:induction false} FollowsList(m: seq<uint32>, list: seq<nat>, head: nat, n: nat)
    requires Threaded(m, list, head) && n <= |list|
    ensures Follow(m, head, n) == if n == |list| then 0 else list[|list| - 1 - n]
    decreases n
  {
    if n > 0 {
      assert Node(list, |list| - 1) == head;
      PopKeepsThread(m, list, head);
      FollowsList(m, list[..|list| - 1], m[head / 4], n - 1);
    }
  }

  /** A free list is acyclic: as many links as it has nodes lead to NULL, through
      different free cells each large enough for the class. */
  lemma FreeListIsAcyclic(h: Heap, limit: nat, i: nat)
    requires Sound(h.m, h.caches, h.cells, h.lists, limit) && i < CLASSES
    ensures |h.caches| == |h.lists| == CLASSES
    ensures Follow(h.m, h.caches[i].freeList, |h.lists[i]|) == 0
    ensures forall n: nat {:trigger Follow(h.m, h.caches[i].freeList, n)} :: n < |h.lists[i]| ==>
              var a := Follow(h.m, h.caches[i].freeList, n);
              a in h.cells && h.cells[a].state == Free(i, |h.lists[i]| - 1 - n) && h.cells[a].size >= SlabSize(i)
  {
    var list, head := h.lists[i], h.caches[i].freeList;
    assert Threaded(h.m, list, head);
    FollowsList(h.m, list, head, |list|);
    forall n: nat | n < |list|
      ensures Follow(h.m, head, n) == list[|list| - 1 - n]
    {
      FollowsList(h.m, list, head, n);
    }
  }

  /** A live block shares no byte with another live block or with a free node. */
  lemma LiveBlocksAreApart(h: Heap, limit: nat, p: nat, q: nat)
    requires Sound(h.m, h.caches, h.cells, h.lists, limit) && p != q
    requires LiveAt(h.cells, p) && q in h.cells && (LiveAt(h.cells, q) || h.cells[q].state.Free?)
    ensures p + h.cells[p].size <= q || q + h.cells[q].size <= p
  {
    if q < p { assert q + h.cells[q].size <= p; }
  }

  lemma HeadersAreInNoBlock(h: Heap, limit: nat, p: nat)
    requires Sound(h.m, h.caches, h.cells, h.lists, limit) && p >= 8
    ensures HeaderAt(h.cells, p - 8) ==> !InOtherBlock(h.cells, p, (p - 8) / 4)
  {
    if HeaderAt(h.cells, p - 8) { HeaderIsInNoBlock(h.cells, limit, p); }
  }

  /** Stopped: the window could not grow. Faulted: a size that wraps to no page, whose
      header is then stored in an unmapped one. */
  datatype Outcome = Null | Block(ptr: nat) | Stopped(why: Stop) | Faulted

  class KernelHeap {
    const window: HeapWindow
    const mem: array<uint32>  // every 32-bit word of the address space
    var caches: seq<Cache>
    ghost var cells: map<nat, Cell>
    ghost var lists: seq<seq<nat>>

    /** Static memory before boot: no lists yet, the other words arbitrary. */
    constructor (window: HeapWindow)
      ensures this.window == window && fresh(mem) && mem.Length == ADDRESS_WORDS
      ensures caches == seq(CLASSES, _ => Cache(0, 0)) && cells == map[] && lists == seq(CLASSES, _ => [])
    {
      this.window := window;
      mem := new uint32[ADDRESS_WORDS];
      caches, cells, lists := seq(CLASSES, _ => Cache(0, 0)), map[], seq(CLASSES, _ => []);
    }

    ghost predicate SoundUpTo(limit: nat)
      reads this`caches, this`cells, this`lists, mem
    {
      Sound(mem[..], caches, cells, lists, limit)
    }

    ghost predicate Sized()
      reads this`caches
    {
      |caches| == CLASSES && forall i :: 0 <= i < CLASSES ==> caches[i].objSize == SlabSize(i)
    }

    ghost predicate Valid()
      reads this, mem, window, window.vm, window.vm.pmm, window.vm.pmm.bitmap, window.vm.ram
    {
      && (mem as object) != window.vm.pmm.bitmap
      && window.Valid() && SoundUpTo(window.cursor) && Sized()
    }

    /** `node->next = free_list; free_list = node`. */
    method Link(i: nat, a: nat, ghost limit: nat)
      requires SoundUpTo(limit) && i < CLASSES
      requires a in cells && (cells[a].state.Live? || cells[a].state.Dropped?) && cells[a].size >= SlabSize(i)
      requires !HeaderAt(cells, a - 8)
      modifies this`caches, this`cells, this`lists, mem
      ensures SoundUpTo(limit)
      ensures cells == old(cells)[a := Cell(old(cells)[a].size, Free(i, |old(lists)[i]|))]
      ensures lists == old(lists)[i := old(lists)[i] + [a]]
      ensures caches == old(caches)[i := old(caches)[i].(freeList := a)]
      ensures OnlyChanges(mem[..], old(mem[..]), a / 4, a / 4 + 1)
    {
      ghost var was := mem[..];
      assert a / 4 < mem.Length;
      HeadIsAddress(was, caches, lists, i);
      mem[a / 4] := caches[i].freeList;
      PushKeepsSound(mem[..], was, caches, cells, lists, limit, i, a);
      hide Sound;
      caches := caches[i := caches[i].(freeList := a)];
      cells := cells[a := Cell(cells[a].size, Free(i, |lists[i]|))];
      lists := lists[i := lists[i] + [a]];
    }

    ghost function Now(): Heap
      reads this`caches, this`cells, this`lists, mem
    {
      Heap(mem[..], caches, cells, lists)
    }

    /** The cell of an object about to be carved at the frontier. */
    ghost method ExtendTo(ptr: nat, obj: nat)
      requires SoundUpTo(ptr) && HEAP_VIRT_BASE <= ptr && ptr % 8 == 0 && obj >= 8 && ptr + obj <= 0x1_0000_0000
      modifies this`cells
      ensures SoundUpTo(ptr + obj) && ptr !in old(cells) && cells == old(cells)[ptr := Cell(obj, Dropped)]
      ensures !HeaderAt(cells, ptr - 8)
    {
      AddKeepsSound(mem[..], caches, cells, lists, ptr, ptr, Cell(obj, Dropped));
      FrontierFollowsNoHeader(mem[..], caches, cells, lists, ptr);
      hide Sound;
      cells := cells[ptr := Cell(obj, Dropped)];
    }

    /** Carves one object at the frontier and pushes it: the n-th at `base` so far. */
    method CarveOne(i: nat, ptr: nat, obj: nat, ghost was: Heap, ghost base: nat, ghost n: nat)
      requires SoundUpTo(ptr) && i < CLASSES && i < |caches| && i < |lists| && obj == SlabSize(i)
      requires HEAP_VIRT_BASE <= base <= ptr && ptr % 8 == 0 && base % 8 == 0
      requires ptr + obj <= base + SLAB_BYTES <= 0x1_0000_0000
      requires Carved(Now(), was, i, base, n) && ptr == base + Bytes(n, obj)
      modifies this`caches, this`cells, this`lists, mem
      ensures SoundUpTo(ptr + obj) && Carved(Now(), was, i, base, n + 1)
      ensures i < |caches| && i < |lists|
    {
      hide Sound, SoundUpTo, OnlyChanges, SlabSize, Carved, HeaderAt;
      ghost var mid := Now();
      ExtendTo(ptr, obj);
      Link(i, ptr, ptr + obj);
      CarveStep(Now(), mid, was, i, base, n, ptr, cells[ptr]);
    }

    /** The threading loop: `count` objects of `obj` bytes fill the slab at `base`. */
    method CarveAll(i: nat, base: nat, obj: nat, count: nat)
      requires SoundUpTo(base) && i < CLASSES && i < |caches| && i < |lists| && obj == SlabSize(i) && obj % 8 == 0
      requires Bytes(count, obj) == SLAB_BYTES && Bytes(0, obj) == 0
      requires HEAP_VIRT_BASE <= base && base % 8 == 0 && base + SLAB_BYTES <= 0x1_0000_0000
      requires Carved(Now(), Now(), i, base, 0)
      modifies this`caches, this`cells, this`lists, mem
      ensures SoundUpTo(base + SLAB_BYTES) && Carved(Now(), old(Now()), i, base, count)
    {
      hide *;
      var ptr := base;
      for j := 0 to count
        invariant ptr + Bytes(count - j, obj) == base + SLAB_BYTES && ptr % 8 == 0 && base <= ptr
        invariant ptr == base + Bytes(j, obj)
        invariant SoundUpTo(ptr) && Carved(Now(), old(Now()), i, base, j)
        invariant i < |caches| && i < |lists|
      {
        Stride(count - j, obj);
        Stride(j + 1, obj);
        CarveOne(i, ptr, obj, old(Now()), base, j);
        ptr := ptr + obj;
      }
    }

    /** Cuts fresh pages at `base` into objects of class i, each pushed in turn. */
    method ThreadObjects(i: nat, base: nat)
      requires SoundUpTo(base) && i < CLASSES && i < |caches| && caches[i].objSize == SlabSize(i)
      requires HEAP_VIRT_BASE <= base && base % 8 == 0 && base + SLAB_BYTES <= 0x1_0000_0000
      modifies this`caches, this`cells, this`lists, mem
      ensures SoundUpTo(base + SLAB_BYTES)
      ensures Carved(Now(), old(Now()), i, base, ObjectsPerSlab(SlabSize(i)))
    {
      ObjectsFillTheSlab(i);
      NothingCarvedYet(Now(), i, base);
      assert |lists| == CLASSES && SlabSize(i) % 8 == 0;
      hide *;
      var obj := caches[i].objSize;
      CarveAll(i, base, obj, ObjectsPerSlab(obj));
    }

    /** `obj = free_list; free_list = obj->next`. */
    method Pop(i: nat, ghost limit: nat) returns (p: nat)
      requires SoundUpTo(limit) && i < CLASSES && i < |caches| && i < |lists| && lists[i] != []
      modifies this`caches, this`cells, this`lists
      ensures SoundUpTo(limit) && p == Top(old(lists)[i]) && p in old(cells) && old(cells)[p].state.Free?
      ensures old(cells)[p].size >= SlabSize(i) && p % 8 == 0 && p + old(cells)[p].size <= 0x1_0000_0000
      ensures lists == old(lists)[i := old(lists)[i][..|old(lists)[i]| - 1]]
      ensures cells == old(cells)[p := Cell(old(cells)[p].size, Live)] && SameShapes(caches, old(caches))
    {
      PopKeepsSound(mem[..], caches, cells, lists, limit, i);
      p := caches[i].freeList;
      CellEnds(mem[..], caches, cells, lists, limit, p);
      hide Sound;
      caches := caches[i := caches[i].(freeList := mem[p / 4])];
      cells := cells[p := Cell(cells[p].size, Live)];
      lists := lists[i := lists[i][..|lists[i]| - 1]];
    }

    /** Pops the first node of a list and clears it: `memset(obj, 0, obj_size)`. */
    method Take(i: nat, ghost limit: nat) returns (p: nat)
      requires SoundUpTo(limit) && i < CLASSES && i < |caches| && i < |lists|
      requires lists[i] != [] && caches[i].objSize == SlabSize(i)
      modifies this`caches, this`cells, this`lists, mem
      ensures SoundUpTo(limit) && p == Top(old(lists)[i]) && p in old(cells) && old(cells)[p].state.Free?
      ensures old(cells)[p].size >= SlabSize(i) && p < 0x1_0000_0000
      ensures lists == old(lists)[i := old(lists)[i][..|old(lists)[i]| - 1]]
      ensures cells == old(cells)[p := Cell(old(cells)[p].size, Live)] && SameShapes(caches, old(caches))
      ensures OnlyChanges(mem[..], old(mem[..]), p / 4, (p + SlabSize(i)) / 4)
      ensures forall w :: p / 4 <= w < (p + SlabSize(i)) / 4 ==> w < mem.Length && mem[w] == 0
    {
      p := Pop(i, limit);
      hide Sound, SoundUpTo, OnlyChanges, SlabSize;
      ClearCell(p, caches[i].objSize, limit);
    }

    /** `memset` at the start of a live cell. */
    method ClearCell(p: nat, n: nat, ghost limit: nat)
      requires SoundUpTo(limit) && p in cells && cells[p].state.Live? && n % 8 == 0 && n <= cells[p].size
      requires p % 8 == 0 && p + n <= 0x1_0000_0000
      modifies mem
      ensures SoundUpTo(limit) && OnlyChanges(mem[..], old(mem[..]), p / 4, (p + n) / 4)
      ensures forall w :: p / 4 <= w < (p + n) / 4 ==> w < mem.Length && mem[w] == 0
    {
      ghost var before := mem[..];
      ClearWords(p / 4, (p + n) / 4);
      assert (p + n) / 4 <= (p + cells[p].size) / 4;
      hide *;
      WriteKeepsSound(mem[..], before, caches, cells, lists, limit, p, p / 4, (p + n) / 4);
    }

    method ClearWords(lo: nat, hi: nat)
      requires lo <= hi <= mem.Length
      modifies mem
      ensures OnlyChanges(mem[..], old(mem[..]), lo, hi)
      ensures forall w :: lo <= w < hi ==> mem[w] == 0
    {
      for w := lo to hi
        invariant forall v :: lo <= v < w ==> mem[v] == 0
        invariant forall v :: 0 <= v < mem.Length && !(lo <= v < w) ==> mem[v] == old(mem[v])
      {
        mem[w] := 0;
      }
    }

    /** Gives class i its size and threads its first slab. */
    method StockClass(i: nat, base: nat)
      requires SoundUpTo(base) && Stocked(Now(), i) && i < 8
      requires base == HEAP_VIRT_BASE + i * 0x4000
      modifies this`caches, this`cells, this`lists, mem
      ensures SoundUpTo(base + 0x4000) && Stocked(Now(), i + 1)
    {
      ghost var was := Now();
      EmptyListHasNoHead(mem[..], caches, cells, lists, base, i);
      assert base % 8 == 0 && HEAP_VIRT_BASE <= base && base + SLAB_BYTES == base + 0x4000 <= 0x1_0000_0000;
      var stocked := caches[i := Cache(0, SlabSize(i))];
      SameHeadsKeepSound(mem[..], stocked, caches, cells, lists, base);
      caches := stocked;
      hide *;
      ThreadObjects(i, base);
      StockOne(Now(), was, i, base);
    }

    /** Four pages more, after the first n. */
    method FourMore(n: nat, ghost first: Supply) returns (r: Pages)
      requires window.Valid() && Grew(window.Stock(), first, n) && n + 4 <= 32
      modifies window, window.vm`tables, window.vm.pmm, window.vm.pmm.bitmap, window.vm.ram
      ensures r.Pages? ==>
                && window.Valid() && r.base == old(window.cursor) && window.cursor == r.base + 0x4000
                && Grew(window.Stock(), first, n + 4)
      ensures r.NoPages? ==> Refuses(first, r.why, 32)
    {
      ghost var mid := window.Stock();
      hide *;
      r := window.AllocPages(4);
      if r.NoPages? {
        RefusedOnward(mid, first, r.why, n, 4, 32);
      } else {
        GrewOnward(window.Stock(), mid, first, n, 4);
      }
    }

    /** The slab of class i. */
    method StockNext(i: nat, ghost first: Supply) returns (stop: Option<Stop>)
      requires (mem as object) != window.vm.pmm.bitmap && i < 8
      requires window.Valid() && SoundUpTo(window.cursor) && Stocked(Now(), i)
      requires window.cursor == HEAP_VIRT_BASE + i * 0x4000 && Grew(window.Stock(), first, 4 * i)
      modifies this`caches, this`cells, this`lists, mem
      modifies window, window.vm`tables, window.vm.pmm, window.vm.pmm.bitmap, window.vm.ram
      ensures stop.None? ==>
                && window.Valid() && SoundUpTo(window.cursor) && Stocked(Now(), i + 1)
                && window.cursor == old(window.cursor) + 0x4000 && Grew(window.Stock(), first, 4 * (i + 1))
      ensures stop.Some? ==> Refuses(first, stop.value, 32)
    {
      hide *;
      var pages := FourMore(4 * i, first);
      if pages.NoPages? { return Some(pages.why); }
      StockClass(i, pages.base);
      return None;
    }

    /** `heap_init`, once, on zeroed statics. The result says why it stopped, if it did. */
    method Init() returns (stop: Option<Stop>)
      requires (mem as object) != window.vm.pmm.bitmap && mem.Length == ADDRESS_WORDS
      requires window.Valid() && window.cursor == HEAP_VIRT_BASE
      requires caches == seq(CLASSES, _ => Cache(0, 0)) && cells == map[] && lists == seq(CLASSES, _ => [])
      modifies this`caches, this`cells, this`lists, mem
      modifies window, window.vm`tables, window.vm.pmm, window.vm.pmm.bitmap, window.vm.ram
      ensures stop.None? ==> Valid() && Stocked(Now(), CLASSES) && window.cursor == 0xD002_0000
                             && Grew(window.Stock(), old(window.Stock()), 32)
      ensures stop.Some? ==> Refuses(old(window.Stock()), stop.value, 32)
    {
      EmptyIsSound(Now());
      NothingGrewYet(window.Stock());
      hide Sound, SoundUpTo, SlabSize, Stocked, Now, Grew, Refuses;
      for i := 0 to CLASSES
        invariant window.Valid() && SoundUpTo(window.cursor) && Stocked(Now(), i)
        invariant window.cursor == HEAP_VIRT_BASE + i * 0x4000
        invariant Grew(window.Stock(), old(window.Stock()), 4 * i)
      {
        stop := StockNext(i, old(window.Stock()));
        if stop.Some? { return; }
      }
      StockedIsSized(Now());
      return None;
    }

    /** An exhausted class gets four more pages. The result says why not, if so. */
    method Refill(i: nat) returns (stop: Option<Stop>)
      requires Valid() && i < CLASSES
      modifies this`caches, this`cells, this`lists, mem
      modifies window, window.vm`tables, window.vm.pmm, window.vm.pmm.bitmap, window.vm.ram
      ensures stop.None? ==> Valid() && Carved(Now(), old(Now()), i, old(window.cursor), ObjectsPerSlab(SlabSize(i)))
                             && window.cursor == old(window.cursor) + 0x4000
                             && Grew(window.Stock(), old(window.Stock()), 4)
      ensures stop.Some? ==> Refuses(old(window.Stock()), stop.value, 4)
    {
      hide Sound, SlabSize, Carved, ObjectsPerSlab, SoundUpTo, Grew, Refuses;
      var pages := window.AllocPages(4);
      if pages.NoPages? { return Some(pages.why); }
      ghost var before := Now();
      ThreadObjects(i, pages.base);
      CarvedMeans(Now(), before, i, pages.base, ObjectsPerSlab(SlabSize(i)));
      return None;
    }

    /** Fresh pages behind a header. */
    method AllocLarge(size: uint32) returns (r: Outcome)
      requires Valid() && size > 0
      modifies this`caches, this`cells, this`lists, mem
      modifies window, window.vm`tables, window.vm.pmm, window.vm.pmm.bitmap, window.vm.ram
      ensures !r.Null? && (r.Faulted? <==> PagesWanted(size) == 0)
      ensures r.Stopped? ==> Refuses(old(window.Stock()), r.why, PagesWanted(size))
      ensures r.Block? ==> window.cursor == old(window.cursor) + 4096 * PagesWanted(size)
                           && Grew(window.Stock(), old(window.Stock()), PagesWanted(size))
      ensures r.Block? ==> Valid() && Gave(Now(), old(Now()), r.ptr) && LiveDataKept(Now(), old(Now()))
      ensures r.Block? ==> PagesWanted(size) >= 1 && r.ptr == old(window.cursor) + 8 && HeaderAt(cells, r.ptr - 8)
                           && cells[r.ptr].size == PagesWanted(size) * 4096 - 8 && lists == old(lists)
      ensures r.Block? ==> r.ptr / 4 < mem.Length && mem[(r.ptr - 8) / 4] == 0xDEAD_BEEF
                           && mem[(r.ptr - 4) / 4] == 4096 * PagesWanted(size)
    {
      var pages := PagesWanted(size);
      hide Sound, PagesWanted, Grew, Refuses;
      var base := window.AllocPages(pages);
      if base.NoPages? { return Stopped(base.why); }
      if pages == 0 { return Faulted; }
      CursorBounds();
      StoreHeader(base.base, pages * 4096);
      return Block(base.base + 8);
    }

    lemma CursorBounds()
      requires window.Valid()
      ensures HEAP_VIRT_BASE <= window.cursor <= 0x1_0000_0000 && window.cursor % 4096 == 0
    {
    }

    /** `hdr->magic = LARGE_MAGIC; hdr->size = bytes` at the frontier. */
    method StoreHeader(base: nat, bytes: nat)
      requires SoundUpTo(base) && HEAP_VIRT_BASE <= base && base % 8 == 0 && bytes >= 16 && base + bytes <= 0x1_0000_0000
      modifies this`cells, mem
      ensures SoundUpTo(base + bytes)
      ensures cells == old(cells)[base := Cell(8, Header)][base + 8 := Cell(bytes - 8, Live)]
      ensures (base + 8) / 4 < mem.Length && mem[base / 4] == 0xDEAD_BEEF && mem[(base + 4) / 4] == bytes
      ensures Gave(Now(), old(Now()), base + 8) && LiveDataKept(Now(), old(Now()))
    {
      ghost var was := Now();
      assert base / 4 + 1 < mem.Length;
      mem[base / 4] := LARGE_MAGIC;
      mem[base / 4 + 1] := bytes;
      NothingAtFrontier(mem[..], was.m, caches, cells, lists, base);
      AddLargeKeepsSound(mem[..], caches, cells, lists, base, bytes);
      cells := cells[base := Cell(8, Header)][base + 8 := Cell(bytes - 8, Live)];
      LargeGives(Now(), was, base, bytes);
    }

    /** An object of class i, from its list, refilled first if it is empty. */
    method AllocSmall(i: nat) returns (r: Outcome)
      requires Valid() && i < CLASSES
      modifies this`caches, this`cells, this`lists, mem
      modifies window, window.vm`tables, window.vm.pmm, window.vm.pmm.bitmap, window.vm.ram
      ensures !r.Null? && !r.Faulted?
      ensures r.Stopped? ==> Refuses(old(window.Stock()), r.why, 4)
      ensures r.Block? ==> Valid() && Gave(Now(), old(Now()), r.ptr) && LiveDataKept(Now(), old(Now()))
      ensures r.Block? ==> cells[r.ptr].size >= SlabSize(i)
      ensures r.Block? ==> forall w :: r.ptr / 4 <= w < (r.ptr + SlabSize(i)) / 4 ==> w < mem.Length && mem[w] == 0
      ensures |old(lists)| == CLASSES
      ensures old(lists)[i] != [] ==>
                r.Block? && FromList(r.ptr, lists, old(lists), i) && window.cursor == old(window.cursor)
      ensures old(lists)[i] == [] && r.Block? ==>
                && FromSlab(r.ptr, lists, old(lists), i, old(window.cursor))
                && window.cursor == old(window.cursor) + 0x4000 && Grew(window.Stock(), old(window.Stock()), 4)
    {
      hide Grew, Refuses, FromSlab, FromList;
      EmptyListHasNoHead(mem[..], caches, cells, lists, window.cursor, i);
      if caches[i].freeList == 0 {
        var stop := Refill(i);
        if stop.Some? { return Stopped(stop.value); }
        r := TakeFresh(i, old(Now()), old(window.cursor));
      } else {
        r := TakeBlock(i);
      }
    }

    method TakeBlock(i: nat) returns (r: Outcome)
      requires Valid() && i < CLASSES && i < |lists| && lists[i] != []
      modifies this`caches, this`cells, this`lists, mem
      ensures r.Block? && Valid() && Gave(Now(), old(Now()), r.ptr) && LiveDataKept(Now(), old(Now()))
      ensures cells[r.ptr].size >= SlabSize(i)
      ensures forall w :: r.ptr / 4 <= w < (r.ptr + SlabSize(i)) / 4 ==> w < mem.Length && mem[w] == 0
      ensures FromList(r.ptr, lists, old(lists), i)
    {
      ghost var was := Now();
      assert Apart(cells, window.cursor);
      hide Sound, SoundUpTo, SlabSize, OnlyChanges, Apart;
      var p := Take(i, window.cursor);
      TakeGives(Now(), was, window.cursor, p, (p + SlabSize(i)) / 4);
      return Block(p);
    }

    /** The same from a list just refilled past `base`. */
    method TakeFresh(i: nat, ghost first: Heap, ghost base: nat) returns (r: Outcome)
      requires Valid() && i < CLASSES && Apart(first.cells, base)
      requires Carved(Now(), first, i, base, ObjectsPerSlab(SlabSize(i)))
      requires |first.lists| == CLASSES && first.lists[i] == []
      modifies this`caches, this`cells, this`lists, mem
      ensures r.Block? && Valid() && Gave(Now(), first, r.ptr) && LiveDataKept(Now(), first)
      ensures FromSlab(r.ptr, lists, first.lists, i, base)
      ensures cells[r.ptr].size >= SlabSize(i)
      ensures forall w :: r.ptr / 4 <= w < (r.ptr + SlabSize(i)) / 4 ==> w < mem.Length && mem[w] == 0
    {
      ghost var mid := Now();
      RefillGives(mid, first, i, base, ObjectsPerSlab(SlabSize(i)));
      FreshList(mid, first, i, base);
      hide *;
      r := TakeBlock(i);
      assert FromSlab(r.ptr, lists, first.lists, i, base) by { SameSlab(r.ptr, lists, mid.lists, first.lists, i, base); }
      RefillThenTakeGives(Now(), mid, first, r.ptr);
    }

    /** `k_malloc`. A stop says why the window could not grow; a fault, that
        the size wrapped to no page at all. A block is new, keeps clear of all live data, and holds the request
        exactly if rounding the size up to pages does not wrap. */
    method KMalloc(size: uint32) returns (r: Outcome)
      requires Valid()
      modifies this`caches, this`cells, this`lists, mem
      modifies window, window.vm`tables, window.vm.pmm, window.vm.pmm.bitmap, window.vm.ram
      ensures r.Null? <==> size == 0
      ensures r.Null? ==> Valid() && Now() == old(Now())
      ensures r.Stopped? ==> Refuses(old(window.Stock()), r.why,
                                     if size <= 1024 then 4 else PagesWanted(size))
      ensures r.Block? && size > 1024 ==>
                && r.ptr == old(window.cursor) + 8
                && window.cursor == old(window.cursor) + 4096 * PagesWanted(size)
                && Grew(window.Stock(), old(window.Stock()), PagesWanted(size))
                && r.ptr / 4 < mem.Length && mem[(r.ptr - 8) / 4] == 0xDEAD_BEEF
                && mem[(r.ptr - 4) / 4] == 4096 * PagesWanted(size)
      ensures r.Faulted? <==> size > 1024 && PagesWanted(size) == 0
      ensures r.Block? ==> Valid() && Gave(Now(), old(Now()), r.ptr) && LiveDataKept(Now(), old(Now()))
      ensures r.Block? ==> (cells[r.ptr].size >= size <==> size + 8 + 4095 < 0x1_0000_0000)
      ensures r.Block? && size <= 1024 ==>
                forall w :: r.ptr / 4 <= w < (r.ptr + SlabSize(ClassOf(size))) / 4 ==> w < mem.Length && mem[w] == 0
      ensures r.Block? && size > 1024 ==> HeaderAt(cells, r.ptr - 8) && lists == old(lists)
      ensures |old(lists)| == CLASSES
      ensures 0 < size <= 1024 && old(lists)[ClassOf(size)] != [] ==>
                r.Block? && FromList(r.ptr, lists, old(lists), ClassOf(size)) && window.cursor == old(window.cursor)
      ensures 0 < size <= 1024 && old(lists)[ClassOf(size)] == [] && r.Block? ==>
                && FromSlab(r.ptr, lists, old(lists), ClassOf(size), old(window.cursor))
                && window.cursor == old(window.cursor) + 0x4000 && Grew(window.Stock(), old(window.Stock()), 4)
    {
      EmptyListHasNoHead(mem[..], caches, cells, lists, window.cursor, 0);
      hide Sound, SoundUpTo, Gave, LiveDataKept, HeaderAt, PagesWanted, SlabSize, ClassOf, Grew, Refuses, FromSlab, FromList;
      if size == 0 { return Null; }
      var i := FindClass(size);
      if i < CLASSES {
        r := AllocSmall(i);
      } else {
        LargeBlockHoldsRequest(size);
        r := AllocLarge(size);
      }
    }

    /** The search for the smallest class that fits; CLASSES if there is none. */
    method FindClass(size: uint32) returns (i: nat)
      requires Sized()
      ensures i <= CLASSES && (i == CLASSES <==> size > 1024)
      ensures i < CLASSES ==> i == ClassOf(size)
    {
      i := 0;
      while i < CLASSES
        invariant i <= CLASSES && forall j :: 0 <= j < i ==> SlabSize(j) < size
      {
        if size <= caches[i].objSize { return; }
        i := i + 1;
      }
      assert size > SlabSize(7);
    }

    /** `k_free` of a block that is live (a single free), or of NULL. If the word before
        the block is the magic number, that word is cleared and the block is never used
        again; otherwise the block goes to class 0, whose size divides every block address,
        whatever class it came from. The other live blocks keep their words unless the word
        that is cleared is one of theirs. */
    method KFree(ptr: nat)
      requires Valid() && (ptr != 0 ==> LiveAt(cells, ptr))
      modifies this`caches, this`cells, this`lists, mem
      ensures Valid()
      ensures ptr == 0 ==> Now() == old(Now())
      ensures ptr != 0 ==> ptr >= 8 && ptr < 0x1_0000_0000
      ensures ptr != 0 && old(mem[(ptr - 8) / 4]) == LARGE_MAGIC ==>
                && cells == AfterDrop(old(cells), ptr) && lists == old(lists) && caches == old(caches)
                && mem[..] == old(mem[..])[(ptr - 8) / 4 := 0]
                && (LiveDataKept(Now(), old(Now())) <==> !InOtherBlock(old(cells), ptr, (ptr - 8) / 4))
      ensures ptr != 0 && old(mem[(ptr - 8) / 4]) != LARGE_MAGIC ==>
                && cells == old(cells)[ptr := Cell(old(cells)[ptr].size, Free(0, |old(lists)[0]|))]
                && lists == old(lists)[0 := old(lists)[0] + [ptr]]
                && OnlyChanges(mem[..], old(mem[..]), ptr / 4, ptr / 4 + 1) && LiveDataKept(Now(), old(Now()))
      ensures ptr != 0 && old(HeaderAt(cells, ptr - 8)) ==>
                old(mem[(ptr - 8) / 4]) == LARGE_MAGIC && !InOtherBlock(old(cells), ptr, (ptr - 8) / 4)
    {
      if ptr == 0 { return; }
      LiveBlockPlace(Now(), window.cursor, ptr);
      if mem[(ptr - 8) / 4] == LARGE_MAGIC {
        FreeLarge(ptr);
        return;
      }
      for i := 0 to CLASSES
        invariant i == 0 && Valid() && Now() == old(Now())
      {
        if ptr % caches[i].objSize == 0 {
          FreeSmall(i, ptr);
          return;
        }
      }
    }

    /** `hdr->magic = 0`. */
    method FreeLarge(ptr: nat)
      requires Valid() && LiveAt(cells, ptr) && ptr >= 8 && ptr / 4 < mem.Length && mem[(ptr - 8) / 4] == LARGE_MAGIC
      modifies this`cells, mem
      ensures Valid() && cells == AfterDrop(old(cells), ptr)
      ensures mem[..] == old(mem[..])[(ptr - 8) / 4 := 0]
      ensures LiveDataKept(Now(), old(Now())) <==> !InOtherBlock(old(cells), ptr, (ptr - 8) / 4)
      ensures old(HeaderAt(cells, ptr - 8)) ==> !InOtherBlock(old(cells), ptr, (ptr - 8) / 4)
    {
      ghost var was := Now();
      HeadersAreInNoBlock(was, window.cursor, ptr);
      mem[(ptr - 8) / 4] := 0;
      assert mem[..] == was.m[(ptr - 8) / 4 := 0];
      DropKeepsSound(mem[..], was.m, caches, cells, lists, window.cursor, ptr);
      hide Sound, AfterDrop, InOtherBlock, LiveDataKept;
      cells := AfterDrop(cells, ptr);
      DropKeepsData(Now(), was, ptr);
    }

    /** `node->next = free_list; free_list = node` for the class the search ends at. */
    method FreeSmall(i: nat, ptr: nat)
      requires Valid() && i < CLASSES && i < |lists| && i < |caches| && LiveAt(cells, ptr) && ptr / 4 < mem.Length
      requires cells[ptr].size >= SlabSize(i) && !HeaderAt(cells, ptr - 8)
      modifies this`caches, this`cells, this`lists, mem
      ensures Valid() && cells == old(cells)[ptr := Cell(old(cells)[ptr].size, Free(i, |old(lists)[i]|))]
      ensures lists == old(lists)[i := old(lists)[i] + [ptr]]
      ensures OnlyChanges(mem[..], old(mem[..]), ptr / 4, ptr / 4 + 1) && LiveDataKept(Now(), old(Now()))
    {
      ghost var was := Now();
      assert Apart(cells, window.cursor);
      hide Sound, OnlyChanges, LiveDataKept, Apart, HeaderAt;
      Link(i, ptr, window.cursor);
      PushKeepsData(Now(), was, window.cursor, ptr, cells[ptr].state);
    }

    /** A caller stores a word somewhere inside a live block. */
    method StoreInBlock(p: nat, w: nat, value: uint32)
      requires Valid() && LiveAt(cells, p) && p / 4 <= w < (p + cells[p].size) / 4
      modifies mem
      ensures Valid() && w < mem.Length && mem[w] == value && OnlyChanges(mem[..], old(mem[..]), w, w + 1)
    {
      LiveBlockPlace(Now(), window.cursor, p);
      ghost var was := mem[..];
      mem[w] := value;
      WriteKeepsSound(mem[..], was, caches, cells, lists, window.cursor, p, w, w + 1);
    }

    /** Every byte of a live block lies in a page that is mapped to a frame of its own,
        writable, and not for user code. */
    lemma BlockIsMapped(p: nat, x: nat)
      requires Valid() && LiveAt(cells, p) && p <= x < p + cells[p].size
      ensures HEAP_FIRST_PAGE <= x / 4096 < HEAP_FIRST_PAGE + |window.backing|
      ensures window.vm.Lookup(window.vm.kernelPd, x / 4096)
           == Some(PageEntry(window.backing[x / 4096 - HEAP_FIRST_PAGE] * 4096, HEAP_FLAGS))
      ensures window.vm.Writable(window.vm.kernelPd, x / 4096)
              && !window.vm.UserReachable(window.vm.kernelPd, x / 4096)
    {
      LiveBlockPlace(Now(), window.cursor, p);
      hide Sound;
      var k := x / 4096 - HEAP_FIRST_PAGE;
      assert 0 <= k < |window.backing|;
      assert window.backing[k] < FRAMES_TOTAL;
      PageEntryFields(window.backing[k] * 4096, HEAP_FLAGS);
    }

    /** A freed slab block is the next to be handed out to a request of at most eight
        bytes, although it may be a thousand bytes long. */
    method FreeThenReuse(ptr: nat, size: uint32) returns (r: Outcome)
      requires Valid() && LiveAt(cells, ptr) && 0 < size <= 8
      requires ptr >= 8 && ptr / 4 < mem.Length && mem[(ptr - 8) / 4] != LARGE_MAGIC
      modifies this`caches, this`cells, this`lists, mem
      modifies window, window.vm`tables, window.vm.pmm, window.vm.pmm.bitmap, window.vm.ram
      ensures Valid() && r == Block(ptr) && lists == old(lists)
    {
      EmptyListHasNoHead(mem[..], caches, cells, lists, window.cursor, 0);
      hide Sound;
      KFree(ptr);
      r := KMalloc(size);
    }
  }
}
