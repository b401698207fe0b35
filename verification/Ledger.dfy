/** The forensic ledger: events are queued on the hot path and a background task turns
    them into hash-linked blocks. */
module Ledger {
  import opened Wrappers
  import opened Sha256Spec
  import opened LedgerBlocks
  import opened LedgerChain
  import Queue = LedgerQueue
  import Sha256

  /** The hash function of this ledger. */
  function SHA256(): HashFunction {
    (m: seq<byte>) => Digest(m)
  }

  const BLANK_EVENT: Event := Event(0, 0, 0, Zeros(64))

  /** Hashes the 144 bytes before the hash field and stores the digest. */
  method SealBlock(b: Block) returns (sealed: Block)
    requires Sized(b)
    ensures sealed == Seal(SHA256(), b) && Sized(sealed)
  {
    hide Digest, LittleEndian;
    var digest := Rehash(b);
    sealed := b.(hash := digest);
  }

  method Rehash(b: Block) returns (digest: seq<byte>)
    requires Sized(b)
    ensures digest == BlockHash(SHA256(), b) && |digest| == 32
  {
    hide Digest, LittleEndian;
    var out := new byte[32](_ => 0);
    Fields(b);
    Sha256.Hash(Preimage(b), out);
    digest := out[..];
  }

  /** Events as the queue holds them: target fields already cut and padded. */
  ghost predicate Stored(events: seq<Event>) {
    forall i :: 0 <= i < |events| ==> 0 in events[i].target && events[i].timestamp < UINT64_RANGE
                                      && TargetField(events[i].target) == events[i].target
  }

  method GenesisBlock() returns (g: Block)
    ensures g == Genesis(SHA256()) && Sized(g)
  {
    hide TargetField, GenesisName, SHA256, Seal;
    g := SealBlock(Blank().(target := TargetField(GenesisName())));
  }

  class Ledger {
    const blocks: array<Block>
    const streamHead: array<nat>
    const queue: Queue.Ring<Event>
    var count: nat
    var headIdx: nat
    ghost var accepted: seq<Event>  // every event a push has accepted
    ghost var drained: seq<Event>  // every event taken off the queue

    /** The stored state as a value. */
    ghost function AsChain(): Chain
      reads this`count, blocks, streamHead
    {
      Chain(blocks[..], count, streamHead[..])
    }

    ghost predicate ChainValid()
      reads this`count, this`headIdx, blocks, streamHead
    {
      WellFormed(AsChain()) && AllSized(blocks[..]) && headIdx == count - 1
    }

    /** The state is the one draining `drained` into a fresh ledger gives, and no
        accepted event is lost: it is drained or still queued, in order. */
    ghost predicate Valid()
      reads this, blocks, streamHead, queue, queue.events
    {
      && queue.Valid() && ChainValid()
      && Stored(accepted) && accepted == drained + queue.contents
      && Reached(SHA256(), blocks.Length, drained, AsChain())
    }

    constructor (maxBlocks: nat, queueSize: nat)
      requires 2 <= maxBlocks < UINT32_RANGE && queueSize >= 2
      ensures Valid() && fresh(blocks) && fresh(streamHead) && fresh(queue) && fresh(queue.events)
      ensures blocks.Length == maxBlocks && queue.events.Length == queueSize && accepted == [] && count == 1
    {
      hide Genesis, Blank, SHA256, Records;
      blocks := new Block[maxBlocks](_ => Blank());
      streamHead := new nat[2](_ => 0);
      queue := new Queue.Ring(queueSize, BLANK_EVENT);
      count, headIdx, accepted, drained := 1, 0, [], [];
      new;
      var g := GenesisBlock();
      blocks[0] := g;
      assert blocks[..] == FreshChain(SHA256(), maxBlocks).mem;
      assert streamHead[..] == [0, 0];
    }

    /** Queues an event; `false` means it was dropped because the queue was full. */
    method Enqueue(action: byte, streamId: byte, target: seq<byte>, timestamp: nat) returns (ok: bool)
      requires Valid() && 0 in target && timestamp < UINT64_RANGE
      modifies this`accepted, queue`head, queue`contents, queue.events
      ensures Valid()
      ensures ok <==> |old(queue.contents)| < queue.events.Length - 1
      ensures accepted == if ok then old(accepted) + [Event(action, streamId, timestamp, TargetField(target))]
                          else old(accepted)
    {
      hide TargetField, Reached, WellFormed;
      var ev := Event(action, streamId, timestamp, TargetField(target));
      TargetSurvivesCopy(target);
      ok := queue.Push(ev);
      if ok { accepted := accepted + [ev]; }
    }

    /** The background task: drains the whole queue, finalising one block per event. */
    method Flush()
      requires Valid()
      modifies this`count, this`headIdx, this`drained, blocks, streamHead
      modifies queue`tail, queue`contents, queue`popped
      ensures Valid()
      ensures queue.contents == [] && drained == accepted == old(accepted)
    {
      hide Extend, ExtendAll, FreshChain, TargetField, WellFormed;
      while true
        invariant Valid() && accepted == old(accepted)
        decreases |queue.contents|
      {
        var next := queue.Pop();
        if next.None? { break; }
        ghost var before := drained;
        assert accepted == before + ([next.value] + queue.contents);
        assert next.value == accepted[|before|];
        Finalise(next.value);
        drained := drained + [next.value];
        assert accepted == drained + queue.contents;
        assert Terminated(before) by { assert forall k :: 0 <= k < |before| ==> before[k] == accepted[k]; }
        ExtendAllNext(SHA256(), FreshChain(SHA256(), blocks.Length), before, next.value);
      }
    }

    /** Builds, links and seals the block of one event. */
    method Finalise(ev: Event)
      requires ChainValid() && 0 in ev.target && ev.timestamp < UINT64_RANGE
      modifies this`count, this`headIdx, blocks, streamHead
      ensures ChainValid() && AsChain() == Extend(SHA256(), old(AsChain()), ev)
    {
      hide TargetField, Blank, Seal;
      if count >= blocks.Length { count := 1; }
      var n, sid := count, StreamOf(ev);
      blocks[n] := Blank();
      ghost var zeroed := blocks[..];
      var parentCount, prev0, prev1 := 1, blocks[streamHead[sid]].hash, Zeros(32);
      if streamHead[0] != streamHead[1] {
        parentCount, prev1 := 2, blocks[streamHead[1 - sid]].hash;
      }
      var b := SealBlock(Block(n, ev.timestamp, ev.action, ev.streamId, parentCount, TargetField(ev.target),
                               prev0, prev1, Zeros(32)));
      blocks[n] := b;
      streamHead[sid] := n;
      headIdx := n;
      count := n + 1;
      assert zeroed == old(blocks[..])[n := Blank()];
      assert b == NewBlock(SHA256(), zeroed, n, old(streamHead[..]), ev);
      assert blocks[..] == old(blocks[..])[n := b];
      assert streamHead[..] == old(streamHead[..])[sid := n];
    }

    /** Rehashes every block after slot 0 and looks its first parent up among the
        earlier blocks, whatever the blocks hold. */
    method VerifyChain() returns (ok: bool)
      requires 1 <= count <= blocks.Length && AllSized(blocks[..])
      ensures ok <==> ChainOk(SHA256(), blocks[..], count)
    {
      hide SHA256, BlockHash;
      var i := 1;
      while i < count
        invariant 1 <= i <= count
        invariant ChainOk(SHA256(), blocks[..], i)
      {
        assert !BlockOk(SHA256(), blocks[..], i) ==> !ChainOk(SHA256(), blocks[..], count);
        var recomputed := Rehash(blocks[i]);
        if recomputed != blocks[i].hash { return false; }
        if blocks[i].parentCount > 0 {
          var found := FindParent(i);
          if !found { return false; }
        }
        i := i + 1;
      }
      return true;
    }

    method FindParent(i: nat) returns (found: bool)
      requires i < blocks.Length
      ensures found <==> ParentFound(blocks[..], i)
    {
      found := false;
      for j := 0 to i
        invariant !found && forall k :: 0 <= k < j ==> blocks[k].hash != blocks[i].prev0
      {
        if blocks[j].hash == blocks[i].prev0 {
          assert blocks[..][j].hash == blocks[..][i].prev0;
          return true;
        }
      }
    }

    /** A block that counts, or nothing. */
    method GetBlock(idx: nat) returns (r: Option<Block>)
      requires count <= blocks.Length
      ensures r == if idx < count then Some(blocks[idx]) else None
    {
      r := if idx >= count then None else Some(blocks[idx]);
    }
  }

  /** Two ledgers, tampered with or not, that both pass and share the hash of a block
      hold the same block k first-parent links below it, unless their blocks collide or
      a link has reached the unchecked slot 0. */
  method VerifyBoth(a: Ledger, b: Ledger, ghost i: nat, ghost j: nat, ghost k: nat) returns (ok: bool)
    requires 1 <= a.count <= a.blocks.Length && AllSized(a.blocks[..]) && i < a.count
    requires 1 <= b.count <= b.blocks.Length && AllSized(b.blocks[..]) && j < b.count
    requires CollisionFree(SHA256(), a.blocks[..], b.blocks[..]) && a.blocks[i].hash == b.blocks[j].hash
    ensures ok <==> ChainOk(SHA256(), a.blocks[..], a.count) && ChainOk(SHA256(), b.blocks[..], b.count)
    ensures ok ==>
              var x := Walk(SHA256(), a.blocks[..], a.count, i, k);
              var y := Walk(SHA256(), b.blocks[..], b.count, j, k);
              x >= 1 && y >= 1 ==> a.blocks[x] == b.blocks[y]
  {
    hide SHA256, BlockHash, CollisionFree, ChainOk, AllSized, Walk;
    var first := a.VerifyChain();
    var second := b.VerifyChain();
    ok := first && second;
    if ok && Walk(SHA256(), a.blocks[..], a.count, i, k) >= 1 && Walk(SHA256(), b.blocks[..], b.count, j, k) >= 1 {
      AgreeingHeadsAgreeBelow(SHA256(), a.blocks[..], a.count, i, b.blocks[..], b.count, j, k);
    }
  }

  /** Every ledger reached by draining fewer events than it has room for passes
      verification, whatever the events were. */
  lemma ReachableLedgerVerifies(H: HashFunction, max: nat, events: seq<Event>, c: Chain)
    requires Reached(H, max, events, c) && |events| < max
    ensures c.count == |events| + 1 && WellFormed(c) && ChainOk(H, c.mem, c.count)
  {
    hide *;
    ReachedRecords(H, max, events, c);
    RecordedChainsVerify(H, c, events);
  }

  /** End to end: below the block limit the blocks after genesis are, one for one and in
      order, the accepted events that have been drained; the rest is still queued. */
  lemma NoEventIsLost(H: HashFunction, max: nat, accepted: seq<Event>, drained: seq<Event>, queued: seq<Event>,
                      c: Chain, i: nat)
    requires Stored(accepted) && accepted == drained + queued
    requires Reached(H, max, drained, c) && |drained| < max && i < |accepted|
    ensures |c.mem| == max
    ensures if i < |drained|
            then var b := c.mem[i + 1];
              && b.index == i + 1 && b.action == accepted[i].action && b.streamId == accepted[i].streamId
              && b.timestamp == accepted[i].timestamp && b.target == accepted[i].target
            else accepted[i] == queued[i - |drained|]
  {
    hide Reached, Records, Genesis, ExtendAll, FreshChain, TargetField;
    ReachedRecords(H, max, drained, c);
    if i < |drained| { BlockRecordsEvent(H, c, drained, i + 1); }
  }
}
