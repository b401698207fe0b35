/** The scheduler as the kernel keeps it: circular linked lists of process objects, one
    per priority, with the list heads in an array. */
module Scheduler {
  import opened Wrappers
  import M = SchedulerModel

  class Process {
    const priority: nat
    const ticksAlloc: nat
    var state: M.ProcessState
    var ticksRun: nat
    var next: Process?

    constructor (priority: nat, ticksAlloc: nat)
      ensures this.priority == priority && this.ticksAlloc == ticksAlloc
      ensures state == M.Ready && ticksRun == 0 && next == null
    {
      this.priority, this.ticksAlloc := priority, ticksAlloc;
      state, ticksRun, next := M.Ready, 0, null;
    }
  }

  function RingOf(p: Process): (k: nat)
    ensures k < M.NUM_PRIO
  {
    p.priority % 16
  }

  /** Priorities below 16 are ring numbers; larger ones lose their upper bits. */
  lemma RingIsPriority(p: Process)
    ensures p.priority < 16 ==> RingOf(p) == p.priority
    ensures exists q :: p.priority == 16 * q + RingOf(p)
  {
    assert p.priority == 16 * (p.priority / 16) + RingOf(p);
  }

  /** A larger priority is a higher ring. */
  lemma RingsAreOrdered(p: Process, q: Process)
    requires p.priority < q.priority < 16
    ensures RingOf(p) < RingOf(q)
  {
    RingIsPriority(p);
    RingIsPriority(q);
  }

  function Maybe(p: Process?): Option<Process> {
    if p == null then None else Some(p)
  }

  /** The successor of position i in a ring. */
  function After(r: seq<Process>, i: nat): Process
    requires i < |r|
  {
    if i + 1 < |r| then r[i + 1] else r[0]
  }

  /** Sixteen duplicate-free rings, each of processes of its own priority, and the heads. */
  ghost predicate QueuesOk(rings: seq<seq<Process>>, known: set<Process>, heads: seq<Process?>) {
    && |heads| == M.NUM_PRIO && |rings| == M.NUM_PRIO
    && (forall k :: 0 <= k < M.NUM_PRIO ==> M.NoDup(rings[k]))
    && (forall k, i :: 0 <= k < M.NUM_PRIO && 0 <= i < |rings[k]| ==>
          rings[k][i] in known && RingOf(rings[k][i]) == k)
    && (forall k :: 0 <= k < M.NUM_PRIO ==> heads[k] == if rings[k] == [] then null else rings[k][0])
  }

  lemma AppendQueues(rings: seq<seq<Process>>, known: set<Process>, heads: seq<Process?>, k: nat, p: Process)
    requires QueuesOk(rings, known, heads) && p in known && k == RingOf(p) && p !in rings[k]
    ensures QueuesOk(rings[k := rings[k] + [p]], known, if rings[k] == [] then heads[k := p] else heads)
  {
  }

  lemma RotateQueues(rings: seq<seq<Process>>, known: set<Process>, heads: seq<Process?>, k: nat)
    requires QueuesOk(rings, known, heads) && k < M.NUM_PRIO && rings[k] != []
    ensures QueuesOk(rings[k := M.Rotate(rings[k])], known, heads[k := After(rings[k], 0)])
  {
    var r, q := rings[k], M.Rotate(rings[k]);
    M.RotateKeeps(r);
    assert forall i :: 0 <= i < |q| ==> q[i] == if i + 1 < |r| then r[i + 1] else r[0];
  }

  lemma RemoveQueues(rings: seq<seq<Process>>, known: set<Process>, heads: seq<Process?>, k: nat, p: Process)
    requires QueuesOk(rings, known, heads) && k == RingOf(p)
    ensures var r := M.Without(rings[k], p);
            QueuesOk(rings[k := r], known, if r == [] then heads[k := null] else heads[k := r[0]])
  {
    M.WithoutKeeps(rings[k], p);
    WithoutMembers(rings[k], p, known, k);
  }

  lemma {:induction false} WithoutMembers(r: seq<Process>, p: Process, known: set<Process>, k: nat)
    requires forall i :: 0 <= i < |r| ==> r[i] in known && RingOf(r[i]) == k
    ensures var q := M.Without(r, p); forall i :: 0 <= i < |q| ==> q[i] in known && RingOf(q[i]) == k
  {
    var q := M.Without(r, p);
    if r != [] && r[0] != p { WithoutMembers(r[1..], p, known, k); }
    forall i | 0 <= i < |q|
      ensures q[i] in known && RingOf(q[i]) == k
    {
      if r[0] == p {
        assert q[i] == r[i + 1];
      } else if i > 0 {
        assert q[i] == M.Without(r[1..], p)[i - 1];
      }
    }
  }

  /** The links make each ring a circular list. */
  ghost predicate Circular(r: seq<Process>, links: map<Process, Process?>) {
    forall i :: 0 <= i < |r| ==> r[i] in links && links[r[i]] == After(r, i)
  }

  ghost predicate LinksOk(rings: seq<seq<Process>>, links: map<Process, Process?>) {
    forall k :: 0 <= k < |rings| ==> Circular(rings[k], links)
  }

  /** Changing links of processes of ring k only matters to ring k. */
  lemma OtherRings(rings: seq<seq<Process>>, known: set<Process>, heads: seq<Process?>, k: nat, r: seq<Process>,
                   links: map<Process, Process?>, links': map<Process, Process?>)
    requires QueuesOk(rings, known, heads) && LinksOk(rings, links) && k < M.NUM_PRIO && links.Keys == links'.Keys
    requires forall p :: p in links && RingOf(p) != k ==> links'[p] == links[p]
    requires Circular(r, links')
    ensures LinksOk(rings[k := r], links')
  {
    hide M.NoDup;
    forall j | 0 <= j < |rings| && j != k
      ensures Circular(rings[j], links')
    {
      assert Circular(rings[j], links);
    }
  }

  lemma AppendCircular(r: seq<Process>, links: map<Process, Process?>, p: Process)
    requires r != [] && M.NoDup(r) && Circular(r, links) && p in links && p !in r
    ensures Circular(r + [p], links[r[|r| - 1] := p][p := r[0]])
  {
  }

  lemma CutCircular(r: seq<Process>, links: map<Process, Process?>, i: nat)
    requires M.NoDup(r) && Circular(r, links) && 0 < i < |r|
    ensures Circular(r[..i] + r[i + 1..], links[r[i - 1] := links[r[i]]][r[i] := null])
  {
    var q, links' := r[..i] + r[i + 1..], links[r[i - 1] := links[r[i]]][r[i] := null];
    forall m | 0 <= m < |q|
      ensures q[m] in links' && links'[q[m]] == After(q, m)
    {
      LinkAfterCut(r, i, m);
    }
  }

  /** Links of a ring after its i-th member has been cut out. */
  lemma LinkAfterCut(r: seq<Process>, i: nat, m: nat)
    requires M.NoDup(r) && 0 < i < |r| && m < |r| - 1
    ensures var q := r[..i] + r[i + 1..];
            && (m < i - 1 ==> q[m] == r[m] != r[i - 1] && r[m] != r[i] && After(q, m) == After(r, m))
            && (m == i - 1 ==> q[m] == r[i - 1] != r[i] && After(q, m) == After(r, i))
            && (m >= i ==> q[m] == r[m + 1] != r[i - 1] && r[m + 1] != r[i] && After(q, m) == After(r, m + 1))
  {
  }

  lemma RotateCircular(r: seq<Process>, links: map<Process, Process?>)
    requires Circular(r, links)
    ensures Circular(M.Rotate(r), links)
  {
    var q := M.Rotate(r);
    forall i | 0 <= i < |q|
      ensures q[i] in links && links[q[i]] == After(q, i)
    {
      assert q[i] == if i + 1 < |r| then r[i + 1] else r[0];
    }
  }

  /** Cutting the i-th member out of ring k, i > 0, leaves everything well formed. */
  lemma CutAfter(rings: seq<seq<Process>>, known: set<Process>, heads: seq<Process?>,
                 links: map<Process, Process?>, k: nat, i: nat)
    requires QueuesOk(rings, known, heads) && LinksOk(rings, links) && links.Keys == known
    requires k < M.NUM_PRIO && 0 < i < |rings[k]|
    ensures var r := rings[k];
            var q := M.Without(r, r[i]);
            && r[i] in links && links[r[i]] == After(r, i)
            && QueuesOk(rings[k := q], known, heads)
            && LinksOk(rings[k := q], links[r[i - 1] := links[r[i]]][r[i] := null])
  {
    assert Circular(rings[k], links);
    CutQueues(rings, known, heads, k, i);
    hide M.NoDup, M.Without;
    CutLinks(rings, known, heads, links, k, i);
  }

  lemma CutQueues(rings: seq<seq<Process>>, known: set<Process>, heads: seq<Process?>, k: nat, i: nat)
    requires QueuesOk(rings, known, heads) && k < M.NUM_PRIO && 0 < i < |rings[k]|
    ensures QueuesOk(rings[k := M.Without(rings[k], rings[k][i])], known, heads)
  {
    var r := rings[k];
    M.WithoutAt(r, i);
    RemoveQueues(rings, known, heads, k, r[i]);
    assert M.Without(r, r[i])[0] == r[0] && heads[k := r[0]] == heads;
  }

  lemma CutLinks(rings: seq<seq<Process>>, known: set<Process>, heads: seq<Process?>,
                 links: map<Process, Process?>, k: nat, i: nat)
    requires QueuesOk(rings, known, heads) && LinksOk(rings, links)
    requires k < M.NUM_PRIO && 0 < i < |rings[k]| && rings[k][i - 1] in links && rings[k][i] in links
    ensures var r := rings[k];
            LinksOk(rings[k := M.Without(r, r[i])], links[r[i - 1] := links[r[i]]][r[i] := null])
  {
    var r := rings[k];
    assert Circular(r, links);
    M.WithoutAt(r, i);
    CutCircular(r, links, i);
    hide M.NoDup, M.Without, Circular;
    OtherRings(rings, known, heads, k, M.Without(r, r[i]), links, links[r[i - 1] := links[r[i]]][r[i] := null]);
  }

  /** Emptying a one-member ring. */
  lemma CutOnly(rings: seq<seq<Process>>, known: set<Process>, heads: seq<Process?>,
                links: map<Process, Process?>, k: nat, p: Process)
    requires QueuesOk(rings, known, heads) && LinksOk(rings, links) && links.Keys == known
    requires k < M.NUM_PRIO && rings[k] == [p]
    ensures M.Without(rings[k], p) == []
    ensures QueuesOk(rings[k := []], known, heads[k := null]) && LinksOk(rings[k := []], links[p := null])
  {
    RemoveQueues(rings, known, heads, k, p);
    assert M.Without([p], p) == [];
    OtherRings(rings, known, heads, k, [], links, links[p := null]);
  }

  lemma StartedIs(s: M.Sched<Process>, rings: seq<seq<Process>>, p: Process?)
    requires M.WellFormed(s) && M.Pick(s.rings, s.procs, M.NUM_PRIO).0 == Maybe(p) && M.Pick(s.rings, s.procs, M.NUM_PRIO).1 == rings
    ensures p == null ==> M.Started(s) == None
    ensures p != null ==> p in s.procs && M.Started(s) == Some(M.Sched(rings, s.procs[p := s.procs[p].(state := M.Running)], Maybe(p), true))
  {
    hide M.Pick;
    M.PickedIsKnown(s.rings, s.procs, M.NUM_PRIO);
  }

  class Scheduler {
    const runQueues: array<Process?>
    var current: Process?
    var active: bool
    ghost var rings: seq<seq<Process>>  // each list, from its head
    ghost var known: set<Process>

    /** Sixteen well-formed circular lists; a process is only in the list of its
        priority, so the lists are disjoint. */
    ghost predicate Lists()
      reads this`rings, this`known, runQueues, known`next
    {
      && runQueues.Length == M.NUM_PRIO && |rings| == M.NUM_PRIO
      && QueuesOk(rings, known, runQueues[..])
      && LinksOk(rings, Links())
      && (forall p :: p in known ==> p.ticksAlloc >= 1)
    }

    ghost predicate Valid()
      reads this`rings, this`known, this`current, runQueues, known`next
    {
      Lists() && |rings| == M.NUM_PRIO && (current != null ==> current in known)
    }

    ghost function Links(): map<Process, Process?>
      reads this`known, known`next
    {
      map p | p in known :: p.next
    }

    /** The state as a value of the model. */
    ghost function Abs(): M.Sched<Process>
      reads this`rings, this`current, this`active, this`known, known`state, known`ticksRun
    {
      M.Sched(rings, Procs(), Maybe(current), active)
    }

    /** The state is the given value. */
    ghost predicate Shows(s: M.Sched<Process>)
      reads this`rings, this`current, this`active, this`known, known`state, known`ticksRun
    {
      rings == s.rings && Procs() == s.procs && Maybe(current) == s.current && active == s.active
    }

    ghost function Procs(): map<Process, M.Proc>
      reads this`known, known`state, known`ticksRun
    {
      map p | p in known :: M.Proc(p.state, p.ticksRun, p.ticksAlloc)
    }

    lemma AbsWellFormed()
      requires Valid()
      ensures M.WellFormed(Abs())
    {
    }

    /** `scheduler_init`. */
    constructor (processes: set<Process>)
      requires forall p :: p in processes ==> p.ticksAlloc >= 1
      ensures Valid() && fresh(runQueues) && known == processes && current == null && !active
      ensures forall k :: 0 <= k < M.NUM_PRIO ==> rings[k] == []
    {
      runQueues := new Process?[M.NUM_PRIO](_ => null);
      current, active := null, false;
      rings, known := seq(M.NUM_PRIO, _ => []), processes;
    }

    method SetNext(p: Process, q: Process?)
      requires p in known
      modifies p`next
      ensures Links() == old(Links())[p := q] && p.next == q
    {
      p.next := q;
    }

    method SetState(p: Process, state: M.ProcessState)
      requires Valid() && p in known
      modifies p`state
      ensures Valid() && p in old(Procs()) && Procs() == old(Procs())[p := old(Procs())[p].(state := state)]
    {
      hide Lists;
      p.state := state;
    }

    lemma HeadIs(k: nat)
      requires Valid() && k < M.NUM_PRIO
      ensures runQueues.Length == M.NUM_PRIO && |rings| == M.NUM_PRIO
      ensures runQueues[k] == if rings[k] == [] then null else rings[k][0]
      ensures rings[k] != [] ==> rings[k][0] in known
    {
    }

    lemma ProcOf(p: Process)
      requires p in known
      ensures p in Procs() && Procs()[p] == M.Proc(p.state, p.ticksRun, p.ticksAlloc)
    {
    }

    /** Appends p to the list of its priority. */
    method Add(p: Process)
      requires Valid() && p in known && p !in rings[RingOf(p)]
      modifies this`rings, runQueues, known
      ensures Valid() && Shows(M.Added(old(Abs()), p, RingOf(p))) && p.state == M.Ready
    {
      Enqueue(RingOf(p), p);
      hide Lists;
      SetState(p, M.Ready);
    }

    method Enqueue(k: nat, p: Process)
      requires Valid() && p in known && k == RingOf(p) && p !in rings[k]
      modifies this`rings, runQueues, known`next
      ensures Valid() && rings == old(rings)[k := old(rings[k]) + [p]]
    {
      HeadIs(k);
      hide Lists, QueuesOk, LinksOk;
      if runQueues[k] == null {
        StartList(k, p);
      } else {
        var tail := Tail(k);
        InsertAfter(k, tail, p);
      }
    }

    method StartList(k: nat, p: Process)
      requires Valid() && p in known && k == RingOf(p) && runQueues[k] == null
      modifies this`rings, runQueues, p`next
      ensures Valid() && rings == old(rings)[k := old(rings[k]) + [p]]
    {
      AppendQueues(rings, known, runQueues[..], k, p);
      runQueues[k] := p;
      SetNext(p, p);
      OtherRings(old(rings), known, old(runQueues[..]), k, [p], old(Links()), Links());
      hide M.NoDup, QueuesOk, LinksOk;
      assert rings[k] + [p] == [p] && runQueues[..] == old(runQueues[..])[k := p];
      rings := rings[k := [p]];
    }

    method InsertAfter(k: nat, tail: Process, p: Process)
      requires Valid() && p in known && k == RingOf(p) && p !in rings[k]
      requires rings[k] != [] && tail == rings[k][|rings[k]| - 1]
      modifies this`rings, tail`next, p`next
      ensures Valid() && rings == old(rings)[k := old(rings[k]) + [p]]
    {
      ghost var r := rings[k];
      AppendQueues(rings, known, runQueues[..], k, p);
      AppendCircular(r, Links(), p);
      SetNext(tail, p);
      SetNext(p, runQueues[k]);
      OtherRings(old(rings), known, runQueues[..], k, r + [p], old(Links()), Links());
      hide M.NoDup, QueuesOk, LinksOk;
      rings := rings[k := r + [p]];
    }

    /** Walks the list to the process whose successor is the head. */
    method Tail(k: nat) returns (tail: Process)
      requires Valid() && k < M.NUM_PRIO && runQueues[k] != null
      ensures rings[k] != [] && tail == rings[k][|rings[k]| - 1] && tail in known
    {
      tail := runQueues[k];
      ghost var i := 0;
      while tail.next != runQueues[k]
        invariant 0 <= i < |rings[k]| && tail == rings[k][i]
        decreases |rings[k]| - i
      {
        assert i + 1 < |rings[k]|;
        tail := tail.next;
        i := i + 1;
      }
    }

    /** p is a ready list head of the highest priority, or there is no ready head. */
    ghost predicate Foremost(p: Process?)
      reads runQueues, known`state, this`known
    {
      && (p != null ==> p in known && p.state == M.Ready && exists k :: 0 <= k < runQueues.Length && runQueues[k] == p)
      && (forall k :: 0 <= k < runQueues.Length && runQueues[k] != null && runQueues[k] in known
                      && runQueues[k].state == M.Ready ==>
            p != null && (runQueues[k].priority < 16 && p.priority < 16 ==> runQueues[k].priority <= p.priority))
    }

    lemma ServesPriority(level: int)
      requires Valid() && M.StopsAt(rings, Procs(), M.NUM_PRIO, level)
      ensures Foremost(if level < 0 then null else rings[level][0])
    {
      forall k | 0 <= k < runQueues.Length && runQueues[k] != null && runQueues[k].state == M.Ready
        ensures level >= k && RingOf(runQueues[k]) == k
      {
        HeadIs(k);
        assert M.ReadyHead(rings, Procs(), k);
      }
      if level >= 0 {
        HeadIs(level);
        var p := rings[level][0];
        forall k | 0 <= k < runQueues.Length && runQueues[k] != null && runQueues[k].state == M.Ready
          ensures runQueues[k].priority < 16 && p.priority < 16 ==> runQueues[k].priority <= p.priority
        {
          if p.priority < runQueues[k].priority < 16 { RingsAreOrdered(p, runQueues[k]); }
        }
      }
    }

    /** The ready head of the highest priority; every inspected non-empty list is rotated. */
    method PickNext() returns (p: Process?)
      requires Valid()
      modifies this`rings, runQueues
      ensures Valid()
      ensures M.Known(old(rings), old(Procs()))
      ensures var picked := M.Pick(old(rings), old(Procs()), M.NUM_PRIO); picked.0 == Maybe(p) && picked.1 == rings
      ensures p != null ==> p in known
      ensures old(Foremost(p))
    {
      AbsWellFormed();
      ghost var level := M.PickIsHighestReadyHead(rings, Procs(), M.NUM_PRIO);
      ServesPriority(level);
      hide *;
      p := Search();
      WhoWasPicked(Maybe(p), p, old(rings), level);
    }

    lemma WhoWasPicked(picked: Option<Process>, p: Process?, r: seq<seq<Process>>, level: int)
      requires picked == Maybe(p) && level < |r| && (level >= 0 ==> r[level] != [])
      requires picked == if level < 0 then None else Some(r[level][0])
      ensures p == if level < 0 then null else r[level][0]
    {
    }

    /** The loop from the highest list down; every inspected non-empty one is rotated. */
    method Search() returns (p: Process?)
      requires Valid()
      modifies this`rings, runQueues
      ensures Valid()
      ensures M.Known(old(rings), old(Procs()))
      ensures var picked := M.Pick(old(rings), old(Procs()), M.NUM_PRIO); picked.0 == Maybe(p) && picked.1 == rings
      ensures p != null ==> p in known
    {
      AbsWellFormed();
      PickFromNothing(rings, Procs());
      var prio: nat := M.NUM_PRIO;
      while prio > 0
        invariant prio <= M.NUM_PRIO && Valid() && M.Known(rings, Procs())
        invariant M.Pick(rings, Procs(), prio) == M.Pick(old(rings), old(Procs()), M.NUM_PRIO)
      {
        hide *;
        prio := prio - 1;
        p := Inspect(prio);
        if p != null { return; }
      }
      hide *;
      PickFromNothing(rings, Procs());
      p := null;
    }

    /** Looks at one list: rotates it, and takes the head it had if that one is ready. */
    method Inspect(k: nat) returns (p: Process?)
      requires Valid() && k < M.NUM_PRIO && M.Known(rings, Procs())
      modifies this`rings, runQueues
      ensures Valid() && M.Known(rings, Procs()) && (p != null ==> p in known)
      ensures M.Pick(old(rings), old(Procs()), k + 1)
           == if p != null then (Maybe(p), rings) else M.Pick(rings, Procs(), k)
    {
      HeadIs(k);
      M.PickDown(rings, Procs(), k + 1);
      hide Valid, Procs, M.Known, M.Pick, M.Rotate;
      var head := runQueues[k];
      if head != null {
        ProcOf(head);
        RotateHead(k);
        if head.state == M.Ready { return head; }
      }
      p := null;
    }

    lemma PickFromNothing(r: seq<seq<Process>>, procs: map<Process, M.Proc>)
      requires M.Known(r, procs)
      ensures |r| == M.NUM_PRIO && M.Pick(r, procs, 0) == (None, r)
    {
    }

    /** `run_queues[prio] = p->next`. */
    method RotateHead(k: nat)
      requires Valid() && k < M.NUM_PRIO && runQueues[k] != null
      modifies this`rings, runQueues
      ensures Valid() && rings == old(rings)[k := M.Rotate(old(rings[k]))]
    {
      RotateQueues(rings, known, runQueues[..], k);
      RotateCircular(rings[k], Links());
      OtherRings(rings, known, runQueues[..], k, M.Rotate(rings[k]), Links(), Links());
      runQueues[k] := runQueues[k].next;
      assert runQueues[..] == old(runQueues[..])[k := After(rings[k], 0)];
      rings := rings[k := M.Rotate(rings[k])];
    }

    /** p heads a list with other members. */
    ghost predicate HeadOfMany(p: Process)
      reads this`rings
      requires |rings| == M.NUM_PRIO
    {
      |rings[RingOf(p)]| >= 2 && rings[RingOf(p)][0] == p
    }

    /** Takes p off its list. The lists stay well formed exactly when p is not the head of
        a list with other members: then the tail still points at p, whose own link is gone. */
    method Remove(p: Process)
      requires Valid() && p in known
      modifies this`rings, runQueues, known`next
      ensures Valid() <==> !old(HeadOfMany(p))
      ensures Shows(M.Removed(old(Abs()), p, RingOf(p)))
      ensures old(HeadOfMany(p)) ==> Dangling(RingOf(p), old(rings[RingOf(p)]))
    {
      var k := RingOf(p);
      if runQueues[k] == null { return; }
      var cur: Process, prev: Process? := runQueues[k], null;
      ghost var r, i := rings[k], 0;
      while cur != p
        invariant 0 <= i < |r| && cur == r[i] && p !in r[..i]
        invariant prev == if i == 0 then null else r[i - 1]
        decreases |r| - i
      {
        prev, cur := cur, cur.next;
        if cur == runQueues[k] {
          AbsentFrom(r, i, p);
          return;
        }
        i := i + 1;
      }
      Unlink(k, i, prev, cur);
    }

    lemma AbsentFrom(r: seq<Process>, i: nat, p: Process)
      requires M.NoDup(r) && i < |r| && After(r, i) == r[0] && p !in r[..i] && r[i] != p
      ensures i == |r| - 1 && p !in r && M.Without(r, p) == r
    {
    }

    /** The walk along list k has reached its i-th member. */
    ghost predicate At(k: nat, i: nat, prev: Process?, cur: Process)
      reads this, runQueues, known
    {
      && Valid() && k == RingOf(cur) && cur in known
      && i < |rings[k]| && cur == rings[k][i] && (prev == if i == 0 then null else rings[k][i - 1])
      && (prev != null ==> prev in known)
    }

    lemma WaysOut(k: nat, i: nat, prev: Process?, cur: Process)
      requires At(k, i, prev, cur)
      ensures |rings| == M.NUM_PRIO && k == RingOf(cur)
      ensures cur.next == cur <==> |rings[k]| == 1
      ensures prev != null <==> i > 0
      ensures HeadOfMany(cur) <==> |rings[k]| >= 2 && i == 0
    {
      assert Circular(rings[k], Links());
      OnlyOrHead(rings[k], i);
    }

    /** The three ways out of a list: the only member, one with a predecessor on the
        walk, the head. The walk sets `prev` exactly for members that are not the head. */
    method Unlink(k: nat, ghost i: nat, prev: Process?, cur: Process)
      requires At(k, i, prev, cur) && |rings| == M.NUM_PRIO && k == RingOf(cur)
      modifies this`rings, runQueues, known`next
      ensures Valid() <==> !old(HeadOfMany(cur))
      ensures rings == old(rings)[k := M.Without(old(rings[k]), cur)]
      ensures old(HeadOfMany(cur)) ==> Dangling(k, old(rings[k]))
    {
      WaysOut(k, i, prev, cur);
      hide At;
      if cur.next == cur {
        UnlinkOnly(k, i, prev, cur);
      } else if prev != null {
        UnlinkAfter(k, i, prev, cur);
      } else {
        UnlinkHead(k, i, prev, cur);
      }
    }

    /** List k after its head r[0] was removed from r: the new head is right, but the tail
        still points at r[0], which points nowhere. */
    ghost predicate Dangling(k: nat, r: seq<Process>)
      reads runQueues, r
    {
      && k < runQueues.Length && |r| >= 2
      && runQueues[k] == r[1] && r[|r| - 1].next == r[0] && r[0].next == null
    }

    lemma OnlyOrHead(r: seq<Process>, i: nat)
      requires M.NoDup(r) && i < |r|
      ensures r[0] == r[i] <==> i == 0
      ensures After(r, i) == r[i] <==> |r| == 1
    {
    }

    method UnlinkOnly(k: nat, ghost i: nat, prev: Process?, cur: Process)
      requires At(k, i, prev, cur) && |rings[k]| == 1
      modifies this`rings, runQueues, known`next
      ensures Valid() && rings == old(rings)[k := M.Without(old(rings[k]), cur)]
    {
      CutOnly(rings, known, runQueues[..], Links(), k, cur);
      hide M.NoDup, QueuesOk, LinksOk, M.Without;
      runQueues[k] := null;
      SetNext(cur, null);
      assert runQueues[..] == old(runQueues[..])[k := null];
      rings := rings[k := []];
    }

    method UnlinkAfter(k: nat, ghost i: nat, prev: Process, cur: Process)
      requires At(k, i, prev, cur) && i > 0
      modifies this`rings, known`next
      ensures Valid() && rings == old(rings)[k := M.Without(old(rings[k]), cur)]
    {
      hide M.NoDup, QueuesOk, LinksOk, M.Without;
      CutAfter(rings, known, runQueues[..], Links(), k, i);
      SetNext(prev, cur.next);
      SetNext(cur, null);
      rings := rings[k := M.Without(rings[k], cur)];
    }

    method UnlinkHead(k: nat, ghost i: nat, prev: Process?, cur: Process)
      requires At(k, i, prev, cur) && |rings[k]| >= 2 && i == 0
      modifies this`rings, runQueues, known`next
      ensures !Valid() && rings == old(rings)[k := M.Without(old(rings[k]), cur)]
      ensures Dangling(k, old(rings[k]))
    {
      ghost var r := rings[k];
      runQueues[k] := cur.next;
      cur.next := null;
      rings := rings[k := M.Without(r, cur)];
      assert rings[k] == r[1..] && rings[k][|r| - 2] == r[|r| - 1];
    }

    /** `scheduler_block`, with the same exact condition. */
    method Block(p: Process)
      requires Valid() && p in known
      modifies this`rings, runQueues, known
      ensures Valid() <==> !old(HeadOfMany(p))
      ensures Shows(M.Removed(M.Marked(old(Abs()), p, M.Blocked), p, RingOf(p)))
      ensures old(HeadOfMany(p)) ==> Dangling(RingOf(p), old(rings[RingOf(p)]))
    {
      SetState(p, M.Blocked);
      Remove(p);
    }

    /** The condition can fail for the running process: alone in its list, it becomes the
        head of two when another arrives, and blocking it then strands the list. */
    method ArriveThenBlock(c: Process, p: Process)
      requires Valid() && c in known && p in known && p != c && RingOf(p) == RingOf(c)
      requires current == c && rings[RingOf(c)] == [c]
      modifies this`rings, runQueues, known
      ensures !Valid() && Dangling(RingOf(c), [c, p]) && Procs()[c].state == M.Blocked
    {
      Add(p);
      assert rings[RingOf(c)] == [c, p] && HeadOfMany(c);
      hide Valid, HeadOfMany, Dangling, QueuesOk, LinksOk, Circular;
      Block(c);
    }

    method Unblock(p: Process)
      requires Valid() && p in known && p !in rings[RingOf(p)]
      modifies this`rings, runQueues, known
      ensures Valid() && Shows(M.Added(M.Marked(old(Abs()), p, M.Ready), p, RingOf(p)))
    {
      SetState(p, M.Ready);
      Add(p);
    }

    /** The timer tick is the tick of the model. */
    method Tick()
      requires Valid()
      modifies this`rings, this`current, runQueues, known
      ensures Valid() && old(M.WellFormed(Abs())) && Shows(M.Tick(old(Abs())))
      ensures var now := current; now != old(current) ==> old(Foremost(now))
    {
      hide Lists, M.Known, M.NoDup;
      AbsWellFormed();
      if !active || current == null { return; }
      ghost var c: Process := current;
      Count();
      ProcOf(c);
      hide M.Pick, Procs, Valid;
      if current.ticksRun % current.ticksAlloc != 0 { return; }
      ghost var counted := Abs();
      var next := PickNext();
      assert old(Foremost(next));
      hide Foremost;
      assert Abs() == counted.(rings := M.Pick(counted.rings, counted.procs, M.NUM_PRIO).1);
      if next == null || next == current { return; }
      SwitchTo(next);
    }

    method Count()
      requires Valid() && current != null
      modifies known`ticksRun
      ensures Valid() && current != null && Shows(M.Counted(old(Abs()), current))
    {
      hide Lists;
      current.ticksRun := (current.ticksRun + 1) % 0x1_0000_0000;
      assert Procs() == M.Counted(old(Abs()), current).procs;
    }

    method SwitchTo(next: Process)
      requires Valid() && current != null && next in known && next != current
      modifies this`current, known`state
      ensures Valid() && Shows(M.Switched(old(Abs()), old(current), next))
    {
      hide Lists;
      var prev: Process := current;
      current := next;
      SetState(next, M.Running);
      if prev.state == M.Running { SetState(prev, M.Ready); }
      assert Procs() == M.Switched(old(Abs()), prev, next).procs;
    }

    /** The state is what starting in state s gives, or starting in s panics. */
    ghost predicate StartedFrom(s: M.Sched<Process>, ok: bool)
      reads this`rings, this`current, this`active, this`known, known`state, known`ticksRun
    {
      M.WellFormed(s) && if ok then M.Started(s).Some? && Shows(M.Started(s).value) else M.Started(s) == None
    }

    /** `false` is the panic of a start without processes. */
    method Start() returns (ok: bool)
      requires Valid()
      modifies this`rings, this`current, this`active, runQueues, known
      ensures Valid() && StartedFrom(old(Abs()), ok)
      ensures var now := current; if ok then now != null && old(Foremost(now)) else old(Foremost(null))
    {
      hide M.Pick, M.WellFormed, Lists, StartedFrom, Shows;
      AbsWellFormed();
      active := true;
      var p := PickNext();
      assert old(Foremost(p));
      hide Foremost;
      current := p;
      if p == null {
        StartFails(old(Abs()));
        return false;
      }
      RunFirst(p, old(Abs()));
      return true;
    }

    method RunFirst(p: Process, ghost s: M.Sched<Process>)
      requires Valid() && p in known && current == p && active && Procs() == s.procs
      requires M.WellFormed(s) && M.Pick(s.rings, s.procs, M.NUM_PRIO).0 == Maybe(p) && M.Pick(s.rings, s.procs, M.NUM_PRIO).1 == rings
      modifies p`state
      ensures Valid() && StartedFrom(s, true)
    {
      hide M.Pick, M.WellFormed, Lists, StartedFrom, Shows;
      SetState(p, M.Running);
      StartShows(s, p);
    }

    lemma StartFails(s: M.Sched<Process>)
      requires M.WellFormed(s) && M.Pick(s.rings, s.procs, M.NUM_PRIO).0 == Maybe(null)
      ensures StartedFrom(s, false)
    {
    }

    lemma StartShows(s: M.Sched<Process>, p: Process)
      requires M.WellFormed(s) && M.Pick(s.rings, s.procs, M.NUM_PRIO).0 == Maybe(p) && M.Pick(s.rings, s.procs, M.NUM_PRIO).1 == rings && p in s.procs
      requires Procs() == s.procs[p := s.procs[p].(state := M.Running)] && current == p && active
      ensures StartedFrom(s, true)
    {
      StartedIs(s, rings, p);
    }
  }
}
