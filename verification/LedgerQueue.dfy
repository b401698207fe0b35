/** The single-producer/single-consumer ring between event sources and the ledger, each
    call taken as a whole. QueueInterleaving takes the calls apart. */
module LedgerQueue {
  import opened Arithmetic
  import opened Wrappers

  /** With a power-of-two size the mask of the source is a remainder. Of two positions,
      also when their 32-bit difference wraps, it is the one CyclicDifference names. */
  lemma MaskIsRemainder(x: bv32, y: bv32)
    ensures x & 1023 == x % 1024
    ensures x < 1024 && y < 1024 ==> (x - y) & 1023 == if y <= x then x - y else 1024 - (y - x)
  {
  }

  /** The same on integers: the remainder of the difference of two positions. */
  lemma CyclicDifference(x: nat, y: nat, n: nat)
    requires x < n && y < n
    ensures (x - y) % n == if y <= x then x - y else n - (y - x)
  {
    if x < y { PlusLap(x - y, n); }
  }

  // ---------------------------------------------------------------------
  // Positions modulo the ring size
  // ---------------------------------------------------------------------

  lemma NextPosition(a: nat, n: nat)
    requires n > 0
    ensures (a % n + 1) % n == (a + 1) % n
  {
    var q := a / n;
    assert a == q * n + a % n;
    if a % n + 1 < n {
      RemainderOf(a + 1, n, q, a % n + 1);
    } else {
      assert (q + 1) * n == q * n + n;
      RemainderOf(a + 1, n, q + 1, 0);
    }
  }

  /** Positions less than one lap apart are equal only if they are the same; their
      cyclic difference is the distance. */
  lemma WithinOneLap(a: nat, b: nat, n: nat)
    requires n > 0 && b <= a < b + n
    ensures a % n == b % n ==> a == b
    ensures (a % n - b % n) % n == a - b
  {
    var q := b / n;
    assert b == q * n + b % n;
    var r := b % n + (a - b);
    if r < n {
      RemainderOf(a, n, q, r);
      assert a % n - b % n == a - b;
    } else {
      assert (q + 1) * n == q * n + n;
      RemainderOf(a, n, q + 1, r - n);
      assert a % n - b % n == a - b - n;
      PlusLap(a - b - n, n);
    }
  }

  /** d positions further on is the same slot exactly after a full lap. */
  lemma LapTest(b: nat, d: nat, n: nat)
    requires 0 < d <= n
    ensures (b + d) % n == b % n <==> d == n
  {
    if d < n {
      WithinOneLap(b + d, b, n);
    } else {
      var q := b / n;
      assert b == q * n + b % n && (q + 1) * n == q * n + n;
      RemainderOf(b + n, n, q + 1, b % n);
    }
  }

  lemma PlusLap(x: int, n: nat)
    requires n > 0 && x < 0 <= x + n
    ensures x % n == x + n
  {
    var q := x / n;
    assert x == q * n + x % n;
    ProductBounds(q, n);
    assert q == -1;
  }

  /** The slot of the p-th event ever accepted. */
  function Slot(p: nat, n: nat): (i: nat)
    requires n > 0
    ensures i < n
  {
    p % n
  }

  // ---------------------------------------------------------------------
  // The queue as an object
  // ---------------------------------------------------------------------

  class Ring<T(0)> {
    const events: array<T>
    var head: nat
    var tail: nat
    ghost var contents: seq<T>  // accepted and not yet popped, oldest first
    ghost var popped: nat  // events popped since initialisation

    ghost predicate Valid()
      reads this, events
    {
      && events.Length >= 2
      && |contents| <= events.Length - 1
      && tail == Slot(popped, events.Length)
      && head == Slot(popped + |contents|, events.Length)
      && forall k :: 0 <= k < |contents| ==> events[Slot(popped + k, events.Length)] == contents[k]
    }

    constructor (size: nat, blank: T)
      requires size >= 2
      ensures Valid() && fresh(events) && contents == [] && events.Length == size
    {
      events := new T[size](_ => blank);
      head, tail, contents, popped := 0, 0, [], 0;
    }

    /** Accepts an event unless size - 1 are waiting. */
    method Push(ev: T) returns (ok: bool)
      requires Valid()
      modifies this`head, this`contents, events
      ensures Valid()
      ensures ok <==> |old(contents)| < events.Length - 1
      ensures contents == if ok then old(contents) + [ev] else old(contents)
    {
      var next := (head + 1) % events.Length;
      NextPosition(popped + |contents|, events.Length);
      LapTest(popped, |contents| + 1, events.Length);
      if next == tail { return false; }
      forall k {:trigger contents[k]} | 0 <= k < |contents|
        ensures Slot(popped + k, events.Length) != head
      {
        WithinOneLap(popped + |contents|, popped + k, events.Length);
      }
      events[head] := ev;
      contents := contents + [ev];
      head := next;
      return true;
    }

    /** Removes and returns the oldest waiting event. */
    method Pop() returns (r: Option<T>)
      requires Valid()
      modifies this`tail, this`contents, this`popped
      ensures Valid()
      ensures r.None? <==> old(contents) == []
      ensures r.None? ==> contents == []
      ensures r.Some? ==> [r.value] + contents == old(contents)
    {
      WithinOneLap(popped + |contents|, popped, events.Length);
      if tail == head { return None; }
      r := Some(events[tail]);
      assert contents == [contents[0]] + contents[1..];
      NextPosition(popped, events.Length);
      tail := (tail + 1) % events.Length;
      ghost var was := contents;
      contents, popped := contents[1..], popped + 1;
      forall k | 0 <= k < |contents|
        ensures events[Slot(popped + k, events.Length)] == contents[k]
      {
        assert events[Slot(popped - 1 + (k + 1), events.Length)] == was[k + 1];
      }
    }

    /** `(head - tail) & MASK` is the number of waiting events. */
    method Depth() returns (d: nat)
      requires Valid()
      ensures d == |contents|
    {
      WithinOneLap(popped + |contents|, popped, events.Length);
      d := (head - tail) % events.Length;
    }
  }
}
