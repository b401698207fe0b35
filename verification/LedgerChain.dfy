/** The ledger's block array as a value: how one event extends it, what every chain
    built that way looks like, and what its verification can and cannot detect. */
module LedgerChain {
  import opened Sha256Spec
  import opened LedgerBlocks

  /** The block array, how many blocks count, and the newest block of each stream. */
  datatype Chain = Chain(mem: seq<Block>, count: nat, heads: seq<nat>)

  ghost predicate WellFormed(c: Chain) {
    && 2 <= |c.mem| < UINT32_RANGE && 1 <= c.count <= |c.mem|
    && |c.heads| == 2 && c.heads[0] < |c.mem| && c.heads[1] < |c.mem|
  }

  /** All targets are NUL-terminated. */
  ghost predicate Terminated(events: seq<Event>) {
    forall i :: 0 <= i < |events| ==> 0 in events[i].target
  }

  function StreamOf(ev: Event): (s: nat)
    ensures s < 2 && (s == 0 <==> ev.streamId % 2 == 0)
  {
    ev.streamId % 2
  }

  function Seal(H: HashFunction, b: Block): Block {
    b.(hash := BlockHash(H, b))
  }

  lemma SealedHash(H: HashFunction, b: Block)
    ensures BlockHash(H, Seal(H, b)) == Seal(H, b).hash
  {
    hide LittleEndian;
    assert Preimage(Seal(H, b)) == Preimage(b);
  }

  /** "LUNA_OS_GENESIS" and its NUL. */
  function GenesisName(): (s: seq<byte>)
    ensures 0 in s
  {
    var s: seq<byte> := [76, 85, 78, 65, 95, 79, 83, 95, 71, 69, 78, 69, 83, 73, 83, 0];
    assert s[15] == 0;
    s
  }

  function Genesis(H: HashFunction): Block {
    Seal(H, Blank().(target := TargetField(GenesisName())))
  }

  /** The genesis block: all zero but for its name, cut short by zeros, and its hash. */
  lemma GenesisIs(H: HashFunction)
    ensures var g, name := Genesis(H), "LUNA_OS_GENESIS";
            && g.index == g.timestamp == g.action == g.streamId == g.parentCount == 0
            && |g.target| == 64
            && (forall i :: 0 <= i < 64 ==> g.target[i] == if i < 15 then name[i] as int else 0)
            && g.prev0 == g.prev1 == Zeros(32)
            && g.hash == H(Preimage(g))
  {
    hide *;
    GenesisFields(H);
    NameField();
  }

  lemma NameField()
    ensures var t, name := TargetField(GenesisName()), "LUNA_OS_GENESIS";
            forall i :: 0 <= i < 64 ==> t[i] == if i < 15 then name[i] as int else 0
  {
    NameIs();
    hide GenesisName;
    PrefixLengthIsFirstNul(GenesisName(), 63, 15);
    FieldShape(GenesisName(), 15);
    hide *;
    var t := TargetField(GenesisName());
    assert forall i :: 0 <= i < 15 ==> t[i] == t[..15][i] == GenesisName()[i];
  }

  lemma GenesisFields(H: HashFunction)
    ensures Genesis(H) == Block(0, 0, 0, 0, 0, TargetField(GenesisName()), Zeros(32), Zeros(32), H(Preimage(Genesis(H))))
  {
    hide Preimage, TargetField, GenesisName, Zeros;
    SealedHash(H, Blank().(target := TargetField(GenesisName())));
  }

  lemma NameIs()
    ensures var name := "LUNA_OS_GENESIS";
            |name| == 15 && |GenesisName()| == 16 && GenesisName()[15] == 0
            && forall i :: 0 <= i < 15 ==> GenesisName()[i] == name[i] as int != 0
  {
    var s, name := GenesisName(), "LUNA_OS_GENESIS";
    assert s[0] == name[0] as int && s[1] == name[1] as int && s[2] == name[2] as int && s[3] == name[3] as int;
    assert s[4] == name[4] as int && s[5] == name[5] as int && s[6] == name[6] as int && s[7] == name[7] as int;
    assert s[8] == name[8] as int && s[9] == name[9] as int && s[10] == name[10] as int && s[11] == name[11] as int;
    assert s[12] == name[12] as int && s[13] == name[13] as int && s[14] == name[14] as int;
  }

  /** Block n for event ev, its parents read from mem. */
  function NewBlock(H: HashFunction, mem: seq<Block>, n: nat, heads: seq<nat>, ev: Event): Block
    requires |heads| == 2 && heads[0] < |mem| && heads[1] < |mem| && 0 in ev.target
  {
    var own, other := heads[StreamOf(ev)], heads[1 - StreamOf(ev)];
    Seal(H, Block(n, ev.timestamp, ev.action, ev.streamId, if own == other then 1 else 2, TargetField(ev.target),
               mem[own].hash, if own == other then Zeros(32) else mem[other].hash, Zeros(32)))
  }

  /** Where the next block goes: after the last one, or over block 1 when full. */
  function NextIndex(c: Chain): nat {
    if c.count >= |c.mem| then 1 else c.count
  }

  /** One event finalised: the slot is zeroed first, then filled and sealed. */
  function Extend(H: HashFunction, c: Chain, ev: Event): (d: Chain)
    requires WellFormed(c) && 0 in ev.target
    ensures WellFormed(d) && |d.mem| == |c.mem|
  {
    var n := NextIndex(c);
    var b := NewBlock(H, c.mem[n := Blank()], n, c.heads, ev);
    Chain(c.mem[n := b], n + 1, c.heads[StreamOf(ev) := n])
  }

  /** The state after `ledger_init`. */
  function FreshChain(H: HashFunction, max: nat): (c: Chain)
    requires 2 <= max < UINT32_RANGE
    ensures WellFormed(c) && |c.mem| == max
  {
    Chain(seq(max, i => Blank())[0 := Genesis(H)], 1, [0, 0])
  }

  /** Draining a sequence of events into a chain, oldest first. */
  function ExtendAll(H: HashFunction, c: Chain, events: seq<Event>): (d: Chain)
    requires WellFormed(c) && Terminated(events)
    ensures WellFormed(d) && |d.mem| == |c.mem|
    decreases |events|
  {
    hide Extend;
    if events == [] then c
    else Extend(H, ExtendAll(H, c, events[..|events| - 1]), events[|events| - 1])
  }

  lemma ExtendAllNext(H: HashFunction, c: Chain, events: seq<Event>, ev: Event)
    requires WellFormed(c) && Terminated(events) && 0 in ev.target
    ensures Terminated(events + [ev]) && ExtendAll(H, c, events + [ev]) == Extend(H, ExtendAll(H, c, events), ev)
  {
    hide Extend;
    assert (events + [ev])[..|events|] == events;
  }

  /** c is the state a fresh ledger of max blocks reaches by draining the events. */
  ghost predicate Reached(H: HashFunction, max: nat, events: seq<Event>, c: Chain) {
    2 <= max < UINT32_RANGE && Terminated(events) && c == ExtendAll(H, FreshChain(H, max), events)
  }

  // ---------------------------------------------------------------------
  // The shape of the DAG
  // ---------------------------------------------------------------------

  /** The newest block of each stream after the given events, by index. */
  function HeadsAfter(events: seq<Event>): (h: seq<nat>)
    ensures |h| == 2 && h[0] <= |events| && h[1] <= |events|
  {
    if events == [] then [0, 0]
    else HeadsAfter(events[..|events| - 1])[StreamOf(events[|events| - 1]) := |events|]
  }

  /** One stream head is the last block; the heads differ as soon as there is an event. */
  lemma {:induction false} HeadsShape(events: seq<Event>)
    ensures var h := HeadsAfter(events);
            if events == [] then h == [0, 0]
            else h[StreamOf(events[|events| - 1])] == |events| > h[1 - StreamOf(events[|events| - 1])]
  {
  }

  /** Block i holds event i and the hashes of the stream heads before it. */
  ghost predicate BlockFits(H: HashFunction, mem: seq<Block>, events: seq<Event>, i: nat)
    requires 1 <= i <= |events| < |mem| && Terminated(events)
  {
    mem[i] == NewBlock(H, mem, i, HeadsAfter(events[..i - 1]), events[i - 1])
  }

  /** The shape of a chain that records exactly the given events. */
  ghost predicate Records(H: HashFunction, c: Chain, events: seq<Event>)
    requires |events| < |c.mem| && Terminated(events)
  {
    && c.count == |events| + 1 && c.heads == HeadsAfter(events) && c.mem[0] == Genesis(H)
    && forall i :: 1 <= i <= |events| ==> BlockFits(H, c.mem, events, i)
  }

  lemma ExtendRecords(H: HashFunction, c: Chain, events: seq<Event>, ev: Event)
    requires WellFormed(c) && |events| + 1 < |c.mem| && Terminated(events) && 0 in ev.target && Records(H, c, events)
    ensures Terminated(events + [ev]) && Records(H, Extend(H, c, ev), events + [ev])
  {
    hide Genesis, Blank, TargetField, NewBlock, HeadsAfter;
    var all, d := events + [ev], Extend(H, c, ev);
    HeadsStep(events, ev);
    forall i | 1 <= i <= |all|
      ensures BlockFits(H, d.mem, all, i)
    {
      if i < |all| {
        assert all[..i - 1] == events[..i - 1] && BlockFits(H, c.mem, events, i);
        ReadsParentsOnly(H, c.mem, d.mem, i, HeadsAfter(events[..i - 1]), events[i - 1]);
      } else {
        assert all[..i - 1] == events;
        ReadsParentsOnly(H, c.mem[i := Blank()], d.mem, i, HeadsAfter(events), ev);
      }
    }
  }

  /** Every reachable chain below the block limit records its events. */
  lemma {:induction false} ReachedRecords(H: HashFunction, max: nat, events: seq<Event>, c: Chain)
    requires Reached(H, max, events, c) && |events| < max
    ensures WellFormed(c) && |c.mem| == max && Terminated(events) && Records(H, c, events)
    decreases |events|
  {
    hide Genesis, Extend, BlockFits, Blank;
    if events != [] {
      var front, last := events[..|events| - 1], events[|events| - 1];
      var before := ExtendAll(H, FreshChain(H, max), front);
      ReachedRecords(H, max, front, before);
      ExtendRecords(H, before, front, last);
      assert front + [last] == events;
    }
  }

  lemma HeadsStep(events: seq<Event>, ev: Event)
    ensures HeadsAfter(events + [ev]) == HeadsAfter(events)[StreamOf(ev) := |events| + 1]
  {
    assert (events + [ev])[..|events|] == events;
  }

  /** A new block depends on the array only through the hashes of the two heads. */
  lemma ReadsParentsOnly(H: HashFunction, m: seq<Block>, m': seq<Block>, n: nat, heads: seq<nat>, ev: Event)
    requires |heads| == 2 && heads[0] < |m| == |m'| && heads[1] < |m| && 0 in ev.target
    requires m[heads[0]] == m'[heads[0]] && m[heads[1]] == m'[heads[1]]
    ensures NewBlock(H, m, n, heads, ev) == NewBlock(H, m', n, heads, ev)
  {
    hide Seal, TargetField, Zeros, BlockHash;
  }

  /** A block links to another when one of the parents it counts has that hash. */
  predicate Links(b: Block, parent: Block) {
    (b.parentCount >= 1 && b.prev0 == parent.hash) || (b.parentCount == 2 && b.prev1 == parent.hash)
  }

  /** Block i has the given stream heads as parents, its own stream's first; both are
      earlier blocks and one of them is the block before it. */
  ghost predicate ParentsAre(mem: seq<Block>, i: nat, h: seq<nat>, own: nat)
    requires 1 <= i < |mem| && |h| == 2 && own < 2
  {
    && h[0] < i && h[1] < i && (h[0] == i - 1 || h[1] == i - 1)
    && mem[i].parentCount == (if i == 1 then 1 else 2)
    && mem[i].prev0 == mem[h[own]].hash
    && (if i == 1 then mem[i].prev1 == Zeros(32) else h[0] != h[1] && mem[i].prev1 == mem[h[1 - own]].hash)
  }

  /** Every block after genesis has the block before it as a parent; block 1 has one
      parent, every later block two, and all parents are earlier blocks. */
  lemma PreviousBlockIsParent(H: HashFunction, c: Chain, events: seq<Event>, i: nat)
    requires 1 <= i <= |events| < |c.mem| && Terminated(events) && Records(H, c, events)
    ensures Links(c.mem[i], c.mem[i - 1])
    ensures ParentsAre(c.mem, i, HeadsAfter(events[..i - 1]), StreamOf(events[i - 1]))
  {
    hide Genesis, Blank, TargetField, BlockHash;
    HeadsShape(events[..i - 1]);
    assert BlockFits(H, c.mem, events, i);
  }

  /** The stream head a block takes as its first parent is the previous block exactly
      when the previous event was of the same stream (or there was none). */
  lemma OwnHeadIsPrevious(events: seq<Event>, i: nat)
    requires 1 <= i <= |events|
    ensures var parent := HeadsAfter(events[..i - 1])[StreamOf(events[i - 1])];
            parent == i - 1 <==> (i == 1 || events[i - 1].streamId % 2 == events[i - 2].streamId % 2)
  {
    HeadsShape(events[..i - 1]);
    if i > 1 { assert events[..i - 1][i - 2] == events[i - 2]; }
  }

  function Descent(i: nat, j: nat): (p: seq<nat>)
    requires j <= i
    ensures |p| == i - j + 1 && forall k :: 0 <= k < |p| ==> p[k] == i - k
  {
    if i == j then [i] else [i] + Descent(i - 1, j)
  }

  ghost predicate LinkedPath(mem: seq<Block>, p: seq<nat>) {
    && (forall k :: 0 <= k < |p| ==> p[k] < |mem|)
    && (forall k :: 0 <= k < |p| - 1 ==> Links(mem[p[k]], mem[p[k + 1]]))
  }

  /** From any block, so in particular from the newest, parent links lead through
      every earlier block down to genesis. */
  lemma HeadReachesEveryBlock(H: HashFunction, c: Chain, events: seq<Event>, i: nat, j: nat)
    requires j <= i <= |events| < |c.mem| && Terminated(events) && Records(H, c, events)
    ensures LinkedPath(c.mem, Descent(i, j))
  {
    var p := Descent(i, j);
    forall k | 0 <= k < |p| - 1
      ensures Links(c.mem[p[k]], c.mem[p[k + 1]])
    {
      PreviousBlockIsParent(H, c, events, i - k);
    }
  }

  /** Block i of a chain records event i. */
  lemma BlockRecordsEvent(H: HashFunction, c: Chain, events: seq<Event>, i: nat)
    requires 1 <= i <= |events| < |c.mem| && Terminated(events) && Records(H, c, events)
    ensures var b, ev := c.mem[i], events[i - 1];
            && b.index == i && b.timestamp == ev.timestamp && b.action == ev.action
            && b.streamId == ev.streamId && b.target == TargetField(ev.target)
  {
    hide Genesis, Blank, TargetField, BlockHash;
    assert BlockFits(H, c.mem, events, i);
  }

  // ---------------------------------------------------------------------
  // Verification
  // ---------------------------------------------------------------------

  /** Some earlier block bears the hash block i names as its first parent. */
  ghost predicate ParentFound(mem: seq<Block>, i: nat)
    requires i < |mem|
  {
    exists j :: 0 <= j < i && mem[j].hash == mem[i].prev0
  }

  ghost predicate BlockOk(H: HashFunction, mem: seq<Block>, i: nat)
    requires i < |mem|
  {
    BlockHash(H, mem[i]) == mem[i].hash && (mem[i].parentCount > 0 ==> ParentFound(mem, i))
  }

  /** What `ledger_verify_chain` accepts. */
  ghost predicate ChainOk(H: HashFunction, mem: seq<Block>, count: nat)
    requires count <= |mem|
  {
    forall i :: 1 <= i < count ==> BlockOk(H, mem, i)
  }

  /** Every chain grown without recycling passes. */
  lemma RecordedChainsVerify(H: HashFunction, c: Chain, events: seq<Event>)
    requires |events| < |c.mem| && Terminated(events) && Records(H, c, events)
    ensures c.count == |events| + 1 && ChainOk(H, c.mem, c.count)
  {
    hide Genesis, Blank, TargetField, BlockHash;
    forall i | 1 <= i <= |events|
      ensures BlockOk(H, c.mem, i)
    {
      assert BlockFits(H, c.mem, events, i);
      BuiltBlockHash(H, c.mem, i, HeadsAfter(events[..i - 1]), events[i - 1]);
      PreviousBlockIsParent(H, c, events, i);
    }
  }

  lemma BuiltBlockHash(H: HashFunction, mem: seq<Block>, n: nat, heads: seq<nat>, ev: Event)
    requires |heads| == 2 && heads[0] < |mem| && heads[1] < |mem| && 0 in ev.target
    ensures BlockHash(H, NewBlock(H, mem, n, heads, ev)) == NewBlock(H, mem, n, heads, ev).hash
  {
    hide BlockHash, TargetField;
    var own, other := heads[StreamOf(ev)], heads[1 - StreamOf(ev)];
    SealedHash(H, Block(n, ev.timestamp, ev.action, ev.streamId, if own == other then 1 else 2, TargetField(ev.target),
                     mem[own].hash, if own == other then Zeros(32) else mem[other].hash, Zeros(32)));
  }

  /** The event that overflows a full ledger restarts it at block 1 but keeps the stream
      heads, so its parent is a block that no longer counts: verification compares
      that stale parent's hash with genesis. */
  lemma RecycledComparison(H: HashFunction, c: Chain, events: seq<Event>, ev: Event)
    requires WellFormed(c) && |events| == |c.mem| - 1 && Terminated(events) && 0 in ev.target && Records(H, c, events)
    ensures Extend(H, c, ev).count == 2
    ensures ChainOk(H, Extend(H, c, ev).mem, 2) <==> StaleParentHash(c, ev) == Genesis(H).hash
  {
    hide Genesis, TargetField, BlockHash;
    var after := Extend(H, c, ev);
    BuiltBlockHash(H, c.mem[1 := Blank()], 1, c.heads, ev);
    assert BlockOk(H, after.mem, 1) <==> after.mem[0].hash == after.mem[1].prev0;
  }

  /** The hash found at the event's stream head once block 1 has been zeroed. */
  function StaleParentHash(c: Chain, ev: Event): seq<byte>
    requires WellFormed(c)
  {
    if c.heads[StreamOf(ev)] == 1 then Zeros(32) else c.mem[c.heads[StreamOf(ev)]].hash
  }

  /** Verification never looks at slot 0 except for its stored hash. */
  lemma SlotZeroIsUnchecked(H: HashFunction, mem: seq<Block>, count: nat, b: Block)
    requires 1 <= count <= |mem| && b.hash == mem[0].hash
    ensures ChainOk(H, mem[0 := b], count) <==> ChainOk(H, mem, count)
  {
    hide BlockHash;
    var m := mem[0 := b];
    forall i | 1 <= i < count
      ensures BlockOk(H, m, i) <==> BlockOk(H, mem, i)
    {
      assert forall j :: 0 <= j < i ==> m[j].hash == mem[j].hash;
      assert ParentFound(m, i) <==> ParentFound(mem, i);
    }
  }

  // ---------------------------------------------------------------------
  // Tamper evidence
  // ---------------------------------------------------------------------

  /** The block the verifier finds for the first parent of block i: the earliest
      earlier one with that hash. */
  function Resolve(mem: seq<Block>, i: nat, from: nat): (j: nat)
    requires from <= i < |mem| && exists j :: from <= j < i && mem[j].hash == mem[i].prev0
    ensures from <= j < i && mem[j].hash == mem[i].prev0
    ensures forall l :: from <= l < j ==> mem[l].hash != mem[i].prev0
    decreases i - from
  {
    if mem[from].hash == mem[i].prev0 then from else Resolve(mem, i, from + 1)
  }

  /** k first-parent hops from block i; slot 0 and parentless blocks stay put. */
  function Walk(H: HashFunction, mem: seq<Block>, count: nat, i: nat, k: nat): (j: nat)
    requires i < count <= |mem| && ChainOk(H, mem, count)
    ensures j <= i
  {
    if k == 0 then i
    else
      var j := Walk(H, mem, count, i, k - 1);
      if j == 0 || mem[j].parentCount == 0 then j
      else
        assert BlockOk(H, mem, j);
        Resolve(mem, j, 0)
  }

  /** Each hop of a walk follows the first parent link, to the earliest block that bears
      the hash, until slot 0 or a block without parents. */
  lemma WalkFollowsFirstParents(H: HashFunction, mem: seq<Block>, count: nat, i: nat, k: nat)
    requires i < count <= |mem| && ChainOk(H, mem, count)
    ensures Walk(H, mem, count, i, 0) == i
    ensures var j, next := Walk(H, mem, count, i, k), Walk(H, mem, count, i, k + 1);
            if j == 0 || mem[j].parentCount == 0 then next == j
            else next < j && mem[next].hash == mem[j].prev0 && forall l :: 0 <= l < next ==> mem[l].hash != mem[j].prev0
  {
    hide BlockHash;
  }

  /** No two different hashed contents among the two ledgers collide. */
  ghost predicate CollisionFree(H: HashFunction, a: seq<Block>, b: seq<Block>) {
    forall i, j :: 0 <= i < |a| && 0 <= j < |b| && BlockHash(H, a[i]) == BlockHash(H, b[j]) ==> Preimage(a[i]) == Preimage(b[j])
  }

  ghost predicate AllSized(mem: seq<Block>) {
    forall i :: 0 <= i < |mem| ==> Sized(mem[i])
  }

  lemma SameHashSameBlock(H: HashFunction, a: seq<Block>, b: seq<Block>, i: nat, j: nat)
    requires i < |a| && j < |b| && AllSized(a) && AllSized(b) && CollisionFree(H, a, b)
    requires BlockHash(H, a[i]) == a[i].hash == b[j].hash == BlockHash(H, b[j])
    ensures a[i] == b[j]
  {
    hide BlockHash, Preimage;
    PreimageInjective(a[i], b[j]);
  }

  /** Without collisions the blocks of a recorded chain have different hashes. */
  lemma DifferentBlocksDifferentHashes(H: HashFunction, c: Chain, events: seq<Event>, i: nat, j: nat)
    requires i <= |events| < |c.mem| && j <= |events| && Terminated(events) && Records(H, c, events)
    requires AllSized(c.mem) && CollisionFree(H, c.mem, c.mem) && c.mem[i].hash == c.mem[j].hash
    ensures i == j
  {
    RecordedBlock(H, c, events, i);
    RecordedBlock(H, c, events, j);
    hide *;
    SameHashSameBlock(H, c.mem, c.mem, i, j);
  }

  lemma RecordedBlock(H: HashFunction, c: Chain, events: seq<Event>, i: nat)
    requires i <= |events| < |c.mem| && Terminated(events) && Records(H, c, events)
    ensures c.mem[i].index == i && BlockHash(H, c.mem[i]) == c.mem[i].hash
  {
    hide TargetField, BlockHash, GenesisName;
    if i == 0 {
      SealedHash(H, Blank().(target := TargetField(GenesisName())));
    } else {
      assert BlockFits(H, c.mem, events, i);
      BuiltBlockHash(H, c.mem, i, HeadsAfter(events[..i - 1]), events[i - 1]);
    }
  }

  lemma FirstParentHash(H: HashFunction, c: Chain, events: seq<Event>, i: nat)
    requires 1 <= i <= |events| < |c.mem| && Terminated(events) && Records(H, c, events)
    ensures var parent := HeadsAfter(events[..i - 1])[StreamOf(events[i - 1])];
            parent < i && c.mem[i].prev0 == c.mem[parent].hash
  {
    hide Records, Links, HeadsAfter;
    PreviousBlockIsParent(H, c, events, i);
  }

  /** The design note says a block's first parent hash is always that of the previous
      block. It is so exactly when the previous event was of the same stream (or there
      was none). */
  lemma FirstParentIsPrevious(H: HashFunction, c: Chain, events: seq<Event>, i: nat)
    requires 1 <= i <= |events| < |c.mem| && Terminated(events) && Records(H, c, events)
    requires AllSized(c.mem) && CollisionFree(H, c.mem, c.mem)
    ensures c.mem[i].prev0 == c.mem[i - 1].hash <==>
            (i == 1 || events[i - 1].streamId % 2 == events[i - 2].streamId % 2)
  {
    hide *;
    FirstParentHash(H, c, events, i);
    OwnHeadIsPrevious(events, i);
    var parent := HeadsAfter(events[..i - 1])[StreamOf(events[i - 1])];
    if c.mem[i].prev0 == c.mem[i - 1].hash { DifferentBlocksDifferentHashes(H, c, events, parent, i - 1); }
  }

  /** After any two events of different streams block 2 names genesis first and block 1
      second. */
  lemma FirstParentCanSkip(H: HashFunction, e0: Event, e1: Event)
    requires Terminated([e0, e1]) && e0.streamId % 2 != e1.streamId % 2
    ensures var c := ExtendAll(H, FreshChain(H, 3), [e0, e1]);
            && c.mem[2].prev0 == c.mem[0].hash == Genesis(H).hash && c.mem[2].prev1 == c.mem[1].hash
            && (AllSized(c.mem) && CollisionFree(H, c.mem, c.mem) ==> c.mem[2].prev0 != c.mem[1].hash)
  {
    var events := [e0, e1];
    HeadsOfTwo(e0, e1);
    hide Genesis, ExtendAll, FreshChain, HeadsAfter, BlockFits, CollisionFree, AllSized, Records;
    var c := ExtendAll(H, FreshChain(H, 3), events);
    TwoEventChain(H, events, c);
    if AllSized(c.mem) && CollisionFree(H, c.mem, c.mem) { FirstParentIsPrevious(H, c, events, 2); }
  }

  lemma TwoEventChain(H: HashFunction, events: seq<Event>, c: Chain)
    requires |events| == 2 && Terminated(events) && c == ExtendAll(H, FreshChain(H, 3), events)
    ensures WellFormed(c) && |c.mem| == 3 && Records(H, c, events) && c.mem[0] == Genesis(H)
    ensures ParentsAre(c.mem, 2, HeadsAfter(events[..1]), StreamOf(events[1]))
  {
    hide Genesis, ParentsAre, ExtendAll, FreshChain, HeadsAfter, BlockFits;
    ReachedRecords(H, 3, events, c);
    PreviousBlockIsParent(H, c, events, 2);
  }

  lemma HeadsOfTwo(e0: Event, e1: Event)
    ensures HeadsAfter([e0, e1][..1]) == [0, 0][StreamOf(e0) := 1]
  {
    assert [e0, e1][..1] == [e0] && [e0][..0] == [];
  }

  /** No event from position `from` on is of stream s. */
  ghost predicate Silent(events: seq<Event>, s: nat, from: nat) {
    forall i :: from <= i < |events| ==> events[i].streamId % 2 != s
  }

  /** A stream head is 0 exactly while the stream has no block, and at most 1 exactly
      while it has none but block 1. */
  lemma {:induction false} HeadTellsSilence(events: seq<Event>, s: nat, k: nat)
    requires s < 2
    ensures HeadsAfter(events)[s] <= k <==> Silent(events, s, k)
    decreases |events|
  {
    if events != [] {
      var front, last := events[..|events| - 1], events[|events| - 1];
      HeadTellsSilence(front, s, k);
      assert forall i :: 0 <= i < |front| ==> front[i] == events[i];
      if StreamOf(last) != s {
        assert Silent(events, s, k) <==> Silent(front, s, k);
      } else if |events| > k {
        assert !Silent(events, s, k);
      }
    }
  }

  /** The ledger that has just recycled passes verification exactly if the event's
      stream had no block yet; or had block 1 only, now zeroed, and the genesis hash
      happens to be all zeros. */
  lemma RecycledLedgerVerifies(H: HashFunction, c: Chain, events: seq<Event>, ev: Event)
    requires WellFormed(c) && |events| == |c.mem| - 1 && Terminated(events) && 0 in ev.target && Records(H, c, events)
    requires AllSized(c.mem) && CollisionFree(H, c.mem, c.mem)
    ensures Extend(H, c, ev).count == 2
    ensures ChainOk(H, Extend(H, c, ev).mem, 2) <==>
            var s := ev.streamId % 2;
            Silent(events, s, 0) || (Silent(events, s, 1) && Genesis(H).hash == Zeros(32))
  {
    RecycledComparison(H, c, events, ev);
    var s := StreamOf(ev);
    HeadTellsSilence(events, s, 0);
    HeadTellsSilence(events, s, 1);
    var head := c.heads[s];
    assert c.mem[0] == Genesis(H) && head == HeadsAfter(events)[s];
    hide Records, Genesis, Silent, Extend, CollisionFree, AllSized, Zeros, HeadsAfter;
    if head > 1 && c.mem[head].hash == c.mem[0].hash {
      DifferentBlocksDifferentHashes(H, c, events, head, 0);
    }
  }

  lemma NotSilent(e: Event)
    ensures !Silent([e, e], e.streamId % 2, 0) && !Silent([e, e], e.streamId % 2, 1)
  {
    assert [e, e][1] == e;
  }

  /** A ledger of three blocks that fails: any event, three times. */
  lemma RecyclingCanFail(H: HashFunction, e: Event)
    requires 0 in e.target
    ensures Terminated([e, e])
    ensures var c := ExtendAll(H, FreshChain(H, 3), [e, e]);
            AllSized(c.mem) && CollisionFree(H, c.mem, c.mem) ==> !ChainOk(H, Extend(H, c, e).mem, 2)
  {
    var events := [e, e];
    assert Terminated(events) && |events| == 2;
    NotSilent(e);
    hide *;
    var c := ExtendAll(H, FreshChain(H, 3), events);
    TwoEventChain(H, events, c);
    if AllSized(c.mem) && CollisionFree(H, c.mem, c.mem) { RecycledLedgerVerifies(H, c, events, e); }
  }

  /** Changing anything but the hash of a verified block is detected, unless the new
      contents collide with the old. */
  lemma EditIsDetected(H: HashFunction, mem: seq<Block>, count: nat, i: nat, b: Block)
    requires 1 <= i < count <= |mem| && ChainOk(H, mem, count) && Sized(mem[i]) && Sized(b)
    requires b != mem[i] && b.hash == mem[i].hash && CollisionFree(H, [mem[i]], [b])
    ensures !ChainOk(H, mem[i := b], count)
  {
    hide BlockHash, Preimage;
    assert BlockOk(H, mem, i);
    if ChainOk(H, mem[i := b], count) {
      assert BlockOk(H, mem[i := b], i);
      SameHashSameBlock(H, [mem[i]], [b], 0, 0);
    }
  }

  /** If two ledgers both pass verification and agree on the hash of a block at index
      1 or later, they agree on the whole contents of every block that first-parent
      links lead to from there, as long as both links stay off the unchecked slot 0. */
  lemma {:induction false} AgreeingHeadsAgreeBelow(H: HashFunction, a: seq<Block>, ca: nat, i: nat,
        b: seq<Block>, cb: nat, j: nat, k: nat)
    requires i < ca <= |a| && j < cb <= |b| && ChainOk(H, a, ca) && ChainOk(H, b, cb)
    requires AllSized(a) && AllSized(b) && CollisionFree(H, a, b)
    requires a[i].hash == b[j].hash
    requires Walk(H, a, ca, i, k) >= 1 && Walk(H, b, cb, j, k) >= 1
    ensures a[Walk(H, a, ca, i, k)] == b[Walk(H, b, cb, j, k)]
    decreases k
  {
    hide BlockHash, Preimage;
    var x, y := Walk(H, a, ca, i, k), Walk(H, b, cb, j, k);
    if k > 0 {
      AgreeingHeadsAgreeBelow(H, a, ca, i, b, cb, j, k - 1);
    }
    assert BlockOk(H, a, x) && BlockOk(H, b, y);
    SameHashSameBlock(H, a, b, x, y);
  }

  /** Against an untampered ledger, whose slot 0 is a correctly sealed genesis block, a
      ledger that passes verification and also has slot 0 sealed agrees all the way. */
  lemma {:induction false} SealedGenesisAgrees(H: HashFunction, a: seq<Block>, ca: nat, i: nat,
        b: seq<Block>, cb: nat, j: nat, k: nat)
    requires i < ca <= |a| && j < cb <= |b| && ChainOk(H, a, ca) && ChainOk(H, b, cb)
    requires AllSized(a) && AllSized(b) && CollisionFree(H, a, b)
    requires BlockHash(H, a[0]) == a[0].hash && BlockHash(H, b[0]) == b[0].hash
    requires a[0].parentCount == 0 && b[0].parentCount == 0
    requires a[i].hash == b[j].hash
    ensures a[Walk(H, a, ca, i, k)] == b[Walk(H, b, cb, j, k)]
    decreases k
  {
    hide BlockHash, Preimage;
    var x, y := Walk(H, a, ca, i, k), Walk(H, b, cb, j, k);
    if k > 0 {
      SealedGenesisAgrees(H, a, ca, i, b, cb, j, k - 1);
    }
    assert x >= 1 ==> BlockOk(H, a, x);
    assert y >= 1 ==> BlockOk(H, b, y);
    SameHashSameBlock(H, a, b, x, y);
  }
}
