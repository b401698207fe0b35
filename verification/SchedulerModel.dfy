/** The scheduler as a value: sixteen rings of processes, what one timer tick does to
    them, and the share of the processor each process of the top ring receives. */
module SchedulerModel {
  import opened Arithmetic
  import opened Wrappers

  const NUM_PRIO: nat := 16
  const UINT32_RANGE: nat := 0x1_0000_0000

  datatype ProcessState = Ready | Running | Blocked | Zombie | Dead

  datatype Proc = Proc(state: ProcessState, ticksRun: nat, ticksAlloc: nat)

  /** Rings are listed from their head; P identifies a process. */
  datatype Sched<!P(==)> = Sched(rings: seq<seq<P>>, procs: map<P, Proc>, current: Option<P>, active: bool)

  function Rotate<T>(r: seq<T>): (q: seq<T>)
    ensures |q| == |r|
  {
    if r == [] then [] else r[1..] + [r[0]]
  }

  predicate NoDup<T(==)>(r: seq<T>) {
    forall i, j :: 0 <= i < j < |r| ==> r[i] != r[j]
  }

  /** Sixteen rings of known processes. */
  ghost predicate Known<P>(rings: seq<seq<P>>, procs: map<P, Proc>) {
    && |rings| == NUM_PRIO
    && (forall k, i :: 0 <= k < NUM_PRIO && 0 <= i < |rings[k]| ==> rings[k][i] in procs)
  }

  /** Sixteen duplicate-free rings of known processes with positive slices; the current
      process is known too. */
  ghost predicate WellFormed<P>(s: Sched<P>) {
    && Known(s.rings, s.procs)
    && (forall k :: 0 <= k < NUM_PRIO ==> NoDup(s.rings[k]))
    && (forall p :: p in s.procs ==> s.procs[p].ticksAlloc >= 1)
    && (s.current.Some? ==> s.current.value in s.procs)
  }

  // ---------------------------------------------------------------------
  // Picking
  // ---------------------------------------------------------------------

  /** `pick_next` from priority `prio` - 1 downward: each non-empty ring it inspects
      is rotated, and the first head found ready is the answer. */
  function Pick<P>(rings: seq<seq<P>>, procs: map<P, Proc>, prio: nat): (r: (Option<P>, seq<seq<P>>))
    requires Known(rings, procs) && prio <= NUM_PRIO
    ensures |r.1| == NUM_PRIO
    decreases prio
  {
    if prio == 0 then (None, rings)
    else if rings[prio - 1] == [] then Pick(rings, procs, prio - 1)
    else
      var p := rings[prio - 1][0];
      var rotated := rings[prio - 1 := Rotate(rings[prio - 1])];
      if procs[p].state == Ready then (Some(p), rotated)
      else Pick(rotated, procs, prio - 1)
  }

  lemma PickDown<P>(rings: seq<seq<P>>, procs: map<P, Proc>, prio: nat)
    requires Known(rings, procs) && 0 < prio <= NUM_PRIO
    ensures rings[prio - 1] == [] ==> Pick(rings, procs, prio) == Pick(rings, procs, prio - 1)
    ensures rings[prio - 1] != [] ==>
              var p, rotated := rings[prio - 1][0], rings[prio - 1 := Rotate(rings[prio - 1])];
              && Known(rotated, procs)
              && Pick(rings, procs, prio) == if procs[p].state == Ready then (Some(p), rotated)
                                             else Pick(rotated, procs, prio - 1)
  {
    if rings[prio - 1] != [] { RotatedKnown(rings, procs, prio - 1); }
  }

  ghost predicate ReadyHead<P>(rings: seq<seq<P>>, procs: map<P, Proc>, k: nat) {
    k < |rings| && rings[k] != [] && rings[k][0] in procs && procs[rings[k][0]].state == Ready
  }

  /** The lowest ring a pick from `prio` - 1 downward inspects. */
  ghost predicate StopsAt<P>(rings: seq<seq<P>>, procs: map<P, Proc>, prio: nat, level: int) {
    && -1 <= level < prio
    && (forall k :: level < k < prio ==> !ReadyHead(rings, procs, k))
    && (level >= 0 ==> ReadyHead(rings, procs, level))
  }

  /** Rings level.. up to prio - 1 have turned once, the others not. */
  ghost predicate TurnedFrom<P>(before: seq<seq<P>>, after: seq<seq<P>>, level: int, prio: nat) {
    |after| == |before|
    && forall k :: 0 <= k < |before| ==> after[k] == if level <= k < prio then Rotate(before[k]) else before[k]
  }

  lemma RotatedKnown<P>(rings: seq<seq<P>>, procs: map<P, Proc>, k: nat)
    requires Known(rings, procs) && k < NUM_PRIO
    ensures Known(rings[k := Rotate(rings[k])], procs)
  {
  }

  /** What a pick does: it stops at the highest ring whose head is ready and returns that
      head; every ring from there up has been rotated once, no other ring has changed. */
  lemma {:induction false} PickIsHighestReadyHead<P>(rings: seq<seq<P>>, procs: map<P, Proc>, prio: nat) returns (level: int)
    requires Known(rings, procs) && prio <= NUM_PRIO
    ensures StopsAt(rings, procs, prio, level)
    ensures Pick(rings, procs, prio).0 == if level < 0 then None else Some(rings[level][0])
    ensures TurnedFrom(rings, Pick(rings, procs, prio).1, level, prio)
    decreases prio
  {
    if prio == 0 {
      level := -1;
    } else if rings[prio - 1] == [] {
      level := PickIsHighestReadyHead(rings, procs, prio - 1);
    } else if procs[rings[prio - 1][0]].state == Ready {
      level := prio - 1;
    } else {
      var rotated := rings[prio - 1 := Rotate(rings[prio - 1])];
      PickDown(rings, procs, prio);
      assert !ReadyHead(rings, procs, prio - 1);
      hide *;
      level := PickIsHighestReadyHead(rotated, procs, prio - 1);
      StopsBelow(rings, procs, prio, level);
      TurnsBelow(rings, Pick(rings, procs, prio).1, prio, level);
      assert level >= 0 ==> rotated[level] == rings[level];
    }
  }

  lemma TurnsBelow<P>(rings: seq<seq<P>>, after: seq<seq<P>>, prio: nat, level: int)
    requires 0 < prio <= |rings| && level < prio - 1
    requires TurnedFrom(rings[prio - 1 := Rotate(rings[prio - 1])], after, level, prio - 1)
    ensures TurnedFrom(rings, after, level, prio)
  {
    hide Rotate;
    var rotated := rings[prio - 1 := Rotate(rings[prio - 1])];
    forall k | 0 <= k < |rings|
      ensures after[k] == if level <= k < prio then Rotate(rings[k]) else rings[k]
    {
      assert after[k] == if level <= k < prio - 1 then Rotate(rotated[k]) else rotated[k];
    }
  }

  lemma StopsBelow<P>(rings: seq<seq<P>>, procs: map<P, Proc>, prio: nat, level: int)
    requires 0 < prio <= |rings| && !ReadyHead(rings, procs, prio - 1)
    requires StopsAt(rings[prio - 1 := Rotate(rings[prio - 1])], procs, prio - 1, level)
    ensures level < prio - 1 && StopsAt(rings, procs, prio, level)
  {
    hide Rotate;
    var rotated := rings[prio - 1 := Rotate(rings[prio - 1])];
    forall k | level < k < prio
      ensures !ReadyHead(rings, procs, k)
    {
      if k < prio - 1 { assert !ReadyHead(rotated, procs, k); }
    }
    if level >= 0 { assert ReadyHead(rotated, procs, level); }
  }

  // ---------------------------------------------------------------------
  // One tick
  // ---------------------------------------------------------------------

  /** The counting half of a tick. */
  function Counted<P>(s: Sched<P>, c: P): Sched<P>
    requires c in s.procs
  {
    s.(procs := s.procs[c := s.procs[c].(ticksRun := (s.procs[c].ticksRun + 1) % 0x1_0000_0000)])
  }

  /** The switch from c to n. */
  function Switched<P>(s: Sched<P>, c: P, n: P): Sched<P>
    requires c in s.procs && n in s.procs
  {
    var procs := s.procs[n := s.procs[n].(state := Running)];
    s.(current := Some(n),
       procs := if procs[c].state == Running then procs[c := procs[c].(state := Ready)] else procs)
  }

  /** `scheduler_tick`. */
  function Tick<P>(s: Sched<P>): Sched<P>
    requires WellFormed(s)
  {
    if !s.active || s.current.None? then s
    else
      var c := s.current.value;
      var s1 := Counted(s, c);
      if s1.procs[c].ticksRun % s1.procs[c].ticksAlloc != 0 then s1
      else
        var (n, rings) := Pick(s1.rings, s1.procs, NUM_PRIO);
        PickedIsKnown(s1.rings, s1.procs, NUM_PRIO);
        var s2 := s1.(rings := rings);
        if n.None? || n.value == c then s2 else Switched(s2, c, n.value)
  }

  lemma PickedIsKnown<P>(rings: seq<seq<P>>, procs: map<P, Proc>, prio: nat)
    requires Known(rings, procs) && prio <= NUM_PRIO
    ensures Pick(rings, procs, prio).0.Some? ==> Pick(rings, procs, prio).0.value in procs
  {
    var level := PickIsHighestReadyHead(rings, procs, prio);
  }

  lemma RotateKeeps<T>(r: seq<T>)
    requires NoDup(r)
    ensures NoDup(Rotate(r)) && forall x :: x in Rotate(r) <==> x in r
  {
    if r != [] {
      assert r == [r[0]] + r[1..];
    }
  }

  lemma PickKeepsRings<P>(rings: seq<seq<P>>, procs: map<P, Proc>)
    requires Known(rings, procs) && forall k :: 0 <= k < NUM_PRIO ==> NoDup(rings[k])
    ensures var after := Pick(rings, procs, NUM_PRIO).1;
            && Known(after, procs)
            && (forall k :: 0 <= k < NUM_PRIO ==> NoDup(after[k]))
            && (forall k :: 0 <= k < NUM_PRIO ==> after[k] == rings[k] || after[k] == Rotate(rings[k]))
  {
    hide Pick;
    var level := PickIsHighestReadyHead(rings, procs, NUM_PRIO);
    var after := Pick(rings, procs, NUM_PRIO).1;
    forall k | 0 <= k < NUM_PRIO
      ensures NoDup(after[k]) && forall i :: 0 <= i < |after[k]| ==> after[k][i] in procs
    {
      RotateKeeps(rings[k]);
      assert forall i :: 0 <= i < |after[k]| ==> after[k][i] in after[k];
    }
  }

  lemma TickKeepsWellFormed<P>(s: Sched<P>)
    requires WellFormed(s)
    ensures WellFormed(Tick(s)) && Tick(s).procs.Keys == s.procs.Keys
    ensures forall k :: 0 <= k < NUM_PRIO ==> Tick(s).rings[k] == s.rings[k] || Tick(s).rings[k] == Rotate(s.rings[k])
  {
    hide Pick, NoDup, Rotate;
    if s.active && s.current.Some? {
      var s1 := Counted(s, s.current.value);
      PickedIsKnown(s1.rings, s1.procs, NUM_PRIO);
      PickKeepsRings(s1.rings, s1.procs);
    }
  }

  /** Only the current process runs. */
  ghost predicate OneRunner<P>(s: Sched<P>) {
    forall p :: p in s.procs && s.procs[p].state == Running ==> s.current == Some(p)
  }

  lemma TickKeepsOneRunner<P>(s: Sched<P>)
    requires WellFormed(s) && OneRunner(s)
    ensures OneRunner(Tick(s))
  {
    if s.active && s.current.Some? {
      var s1 := Counted(s, s.current.value);
      PickedIsKnown(s1.rings, s1.procs, NUM_PRIO);
    }
  }

  // ---------------------------------------------------------------------
  // Proportional share
  // ---------------------------------------------------------------------

  function Ticks<P>(s: Sched<P>, n: nat): (t: Sched<P>)
    requires WellFormed(s)
    ensures WellFormed(t) && t.procs.Keys == s.procs.Keys
  {
    if n == 0 then s
    else
      var before := Ticks(s, n - 1);
      TickKeepsWellFormed(before);
      Tick(before)
  }

  lemma {:induction false} TicksAdd<P>(s: Sched<P>, a: nat, b: nat)
    requires WellFormed(s)
    ensures Ticks(s, a + b) == Ticks(Ticks(s, a), b)
    decreases b
  {
    hide Tick;
    if b > 0 { TicksAdd(s, a, b - 1); }
  }

  /** The processes switched to during n ticks, in order. */
  function Dispatched<P>(s: Sched<P>, n: nat): seq<P>
    requires WellFormed(s)
  {
    if n == 0 then []
    else Dispatched(s, n - 1)
         + (if Ticks(s, n).current.Some? && Ticks(s, n).current != Ticks(s, n - 1).current
            then [Ticks(s, n).current.value] else [])
  }

  lemma {:induction false} DispatchedAdd<P>(s: Sched<P>, a: nat, b: nat)
    requires WellFormed(s)
    ensures Dispatched(s, a + b) == Dispatched(s, a) + Dispatched(Ticks(s, a), b)
    decreases b
  {
    hide Tick, Ticks, WellFormed;
    if b > 0 {
      DispatchedAdd(s, a, b - 1);
      TicksAdd(s, a, b - 1);
      TicksAdd(s, a, b);
    }
  }

  /** Ring k is the highest one in use and has at least two processes; the current one
      is last in it and at the start of a slice, the others are ready and aligned. */
  ghost predicate Sharing<P>(s: Sched<P>, k: nat) {
    && WellFormed(s) && s.active && k < NUM_PRIO && |s.rings[k]| >= 2
    && (forall j :: k < j < NUM_PRIO ==> s.rings[j] == [])
    && s.current == Some(s.rings[k][|s.rings[k]| - 1])
    && (forall i :: 0 <= i < |s.rings[k]| ==> s.procs[s.rings[k][i]].ticksRun % s.procs[s.rings[k][i]].ticksAlloc == 0)
    && (forall i :: 0 <= i < |s.rings[k]| - 1 ==> s.procs[s.rings[k][i]].state == Ready)
    && s.procs[s.current.value].state == Running
  }

  /** m ticks into the slice of the current process. */
  function MidSlice<P>(s: Sched<P>, m: nat): Sched<P>
    requires s.current.Some? && s.current.value in s.procs
  {
    var c := s.current.value;
    s.(procs := s.procs[c := s.procs[c].(ticksRun := s.procs[c].ticksRun + m)])
  }

  /** The state after the current process has used up its slice. */
  function AfterSlice<P>(s: Sched<P>, k: nat): Sched<P>
    requires WellFormed(s) && s.current.Some? && k < NUM_PRIO && |s.rings[k]| >= 2
  {
    var c, n := s.current.value, s.rings[k][0];
    var used := s.procs[c].(state := Ready, ticksRun := s.procs[c].ticksRun + s.procs[c].ticksAlloc);
    s.(rings := s.rings[k := Rotate(s.rings[k])],
       procs := s.procs[n := s.procs[n].(state := Running)][c := used],
       current := Some(n))
  }

  /** The current process's counter stays below 2^32 for this slice. */
  ghost predicate NoOverflow<P>(s: Sched<P>) {
    s.current.Some? && s.current.value in s.procs
    && s.procs[s.current.value].ticksRun + s.procs[s.current.value].ticksAlloc < UINT32_RANGE
  }

  ghost predicate SliceSoFar<P>(s: Sched<P>, m: nat) {
    && WellFormed(s) && s.current.Some? && s.current.value in s.procs && WellFormed(MidSlice(s, m))
    && Ticks(s, m) == MidSlice(s, m) && Dispatched(s, m) == []
  }

  lemma {:induction false} WithinSlice<P>(s: Sched<P>, k: nat, m: nat)
    requires Sharing(s, k) && NoOverflow(s) && m < s.procs[s.current.value].ticksAlloc
    ensures SliceSoFar(s, m)
    decreases m
  {
    hide SliceSoFar, Tick;
    if m > 0 {
      WithinSlice(s, k, m - 1);
      MidSliceTick(s, k, m);
      OneMoreTick(s, m);
    } else {
      NoTicks(s);
    }
  }

  lemma NoTicks<P>(s: Sched<P>)
    requires WellFormed(s) && s.current.Some?
    ensures SliceSoFar(s, 0)
  {
    hide Tick, NoDup, Known;
    assert s.procs == s.procs[s.current.value := s.procs[s.current.value]];
  }

  lemma OneMoreTick<P>(s: Sched<P>, m: nat)
    requires m > 0 && SliceSoFar(s, m - 1) && Tick(MidSlice(s, m - 1)) == MidSlice(s, m)
    ensures SliceSoFar(s, m)
  {
    hide Tick, NoDup, Known;
    TickKeepsWellFormed(MidSlice(s, m - 1));
  }

  lemma MidSliceTick<P>(s: Sched<P>, k: nat, m: nat)
    requires Sharing(s, k) && NoOverflow(s) && 0 < m < s.procs[s.current.value].ticksAlloc
    ensures WellFormed(MidSlice(s, m - 1)) && Tick(MidSlice(s, m - 1)) == MidSlice(s, m)
  {
    var c := s.current.value;
    StepsFromMultiple(s.procs[c].ticksRun, s.procs[c].ticksAlloc, m);
    assert s.procs[c].ticksRun + m < UINT32_RANGE;
    assert Counted(MidSlice(s, m - 1), c).procs == MidSlice(s, m).procs;
  }

  /** With the rings above k empty, a pick takes the head of ring k if it is ready. */
  lemma {:induction false} PickFromTop<P>(rings: seq<seq<P>>, procs: map<P, Proc>, k: nat, prio: nat)
    requires Known(rings, procs) && k < prio <= NUM_PRIO
    requires (forall j :: k < j < prio ==> rings[j] == []) && ReadyHead(rings, procs, k)
    ensures Pick(rings, procs, prio) == (Some(rings[k][0]), rings[k := Rotate(rings[k])])
    decreases prio
  {
    if prio - 1 > k { PickFromTop(rings, procs, k, prio - 1); }
  }

  /** One slice: after ticks_alloc ticks the current process has gained exactly those
      ticks and the next one in the ring, and only that one, has been dispatched. */
  lemma SliceRuns<P>(s: Sched<P>, k: nat) returns (a: nat)
    requires Sharing(s, k) && NoOverflow(s)
    ensures a == s.procs[s.current.value].ticksAlloc
    ensures Ticks(s, a) == AfterSlice(s, k) && Dispatched(s, a) == [s.rings[k][0]]
    ensures Sharing(AfterSlice(s, k), k)
  {
    hide *;
    var c, n;
    c, n, a := SliceEnd(s, k);
    LastOfTicks(s, a, c, n);
  }

  lemma SliceEnd<P>(s: Sched<P>, k: nat) returns (c: P, n: P, a: nat)
    requires Sharing(s, k) && NoOverflow(s)
    ensures WellFormed(s) && c != n && a >= 1
    ensures s.current == Some(c) && c in s.procs && a == s.procs[c].ticksAlloc
    ensures k < |s.rings| && |s.rings[k]| >= 2 && n == s.rings[k][0]
    ensures Dispatched(s, a - 1) == [] && Ticks(s, a - 1).current == Some(c)
    ensures AfterSlice(s, k).current == Some(n) && Tick(Ticks(s, a - 1)) == AfterSlice(s, k)
    ensures Sharing(AfterSlice(s, k), k)
  {
    hide Tick, Ticks, Dispatched, Rotate;
    c, n := s.current.value, s.rings[k][0];
    a := s.procs[c].ticksAlloc;
    WithinSlice(s, k, a - 1);
    LastTick(s, k);
    SliceKeepsSharing(s, k);
  }

  lemma LastOfTicks<P>(s: Sched<P>, a: nat, c: P, n: P)
    requires WellFormed(s) && a >= 1 && c != n && Dispatched(s, a - 1) == []
    requires Ticks(s, a - 1).current == Some(c) && Tick(Ticks(s, a - 1)).current == Some(n)
    ensures Ticks(s, a) == Tick(Ticks(s, a - 1)) && Dispatched(s, a) == [n]
  {
    hide Tick;
  }

  lemma LastTick<P>(s: Sched<P>, k: nat)
    requires Sharing(s, k) && NoOverflow(s)
    requires WellFormed(MidSlice(s, s.procs[s.current.value].ticksAlloc - 1))
    ensures Tick(MidSlice(s, s.procs[s.current.value].ticksAlloc - 1)) == AfterSlice(s, k)
  {
    var c, n := s.current.value, s.rings[k][0];
    var a := s.procs[c].ticksAlloc;
    StepsFromMultiple(s.procs[c].ticksRun, a, a);
    var s1 := Counted(MidSlice(s, a - 1), c);
    assert c != n;
    PickFromTop(s1.rings, s1.procs, k, NUM_PRIO);
    assert Tick(MidSlice(s, a - 1)).procs == AfterSlice(s, k).procs;
  }

  lemma SliceKeepsSharing<P>(s: Sched<P>, k: nat)
    requires Sharing(s, k)
    ensures Sharing(AfterSlice(s, k), k)
  {
    var r, t := s.rings[k], AfterSlice(s, k);
    var c := s.current.value;
    RotateKeeps(r);
    StepsFromMultiple(s.procs[c].ticksRun, s.procs[c].ticksAlloc, s.procs[c].ticksAlloc);
    forall i | 0 <= i < |r|
      ensures t.rings[k][i] == if i < |r| - 1 then r[i + 1] else r[0]
    {
    }
  }

  // ---------------------------------------------------------------------
  // A whole period
  // ---------------------------------------------------------------------

  /** The processes of ring k in the order their slices come, the current one first. */
  function Order<P>(r: seq<P>): (o: seq<P>)
    ensures |o| == |r|
  {
    if r == [] then [] else [r[|r| - 1]] + r[..|r| - 1]
  }

  /** The ticks of the slices of the given processes together. */
  function SliceSum<P>(procs: map<P, Proc>, ps: seq<P>): nat
    requires forall i :: 0 <= i < |ps| ==> ps[i] in procs
  {
    if ps == [] then 0 else SliceSum(procs, ps[..|ps| - 1]) + procs[ps[|ps| - 1]].ticksAlloc
  }

  /** Exactly the processes in `who` have gained one slice; outside r nothing changed. */
  ghost predicate Gained<P>(before: map<P, Proc>, after: map<P, Proc>, who: seq<P>, r: seq<P>) {
    && after.Keys == before.Keys
    && (forall p :: p in before ==>
          && after[p].ticksAlloc == before[p].ticksAlloc
          && after[p].ticksRun == before[p].ticksRun + (if p in who then before[p].ticksAlloc else 0)
          && (p !in r ==> after[p] == before[p]))
  }

  lemma GainOne<P>(before: map<P, Proc>, mid: map<P, Proc>, after: map<P, Proc>, who: seq<P>, x: P, r: seq<P>)
    requires Gained(before, mid, who, r) && Gained(mid, after, [x], r) && x !in who
    ensures Gained(before, after, who + [x], r)
  {
  }

  /** The state j whole slices on: the ring has turned j places, and exactly the
      processes whose slice has come have gained it. */
  ghost predicate SlicesOn<P>(s: Sched<P>, k: nat, j: nat, t: Sched<P>)
    requires WellFormed(s) && k < NUM_PRIO && j <= |s.rings[k]|
  {
    && t.rings == s.rings[k := s.rings[k][j..] + s.rings[k][..j]]
    && Gained(s.procs, t.procs, Order(s.rings[k])[..j], s.rings[k])
  }

  lemma RotateOnce<P>(r: seq<P>, j: nat)
    requires j < |r|
    ensures Rotate(r[j..] + r[..j]) == r[j + 1..] + r[..j + 1]
  {
    var x := r[j..] + r[..j];
    assert x[0] == r[j] && x[1..] == r[j + 1..] + r[..j];
    assert r[..j + 1] == r[..j] + [r[j]];
  }

  /** The last of the turned ring, whose slice comes next, is the j-th in order. */
  lemma LastOfTurned<P>(r: seq<P>, j: nat)
    requires j < |r|
    ensures (r[j..] + r[..j])[|r| - 1] == Order(r)[j]
  {
  }

  lemma OrderNoDup<P>(r: seq<P>, j: nat)
    requires NoDup(r) && j < |r|
    ensures Order(r)[j] in r && Order(r)[j] !in Order(r)[..j]
  {
  }

  /** Every process of ring k can take one more slice without overflow. */
  ghost predicate AllFit<P>(s: Sched<P>, k: nat)
    requires WellFormed(s) && k < NUM_PRIO
  {
    forall i :: 0 <= i < |s.rings[k]| ==>
      s.procs[s.rings[k][i]].ticksRun + s.procs[s.rings[k][i]].ticksAlloc < UINT32_RANGE
  }

  lemma NextSlice<P>(s: Sched<P>, k: nat, j: nat, t: Sched<P>)
    requires Sharing(s, k) && AllFit(s, k) && j < |s.rings[k]| && SlicesOn(s, k, j, t) && Sharing(t, k)
    ensures NoOverflow(t) && t.current == Some(Order(s.rings[k])[j]) && t.rings[k][0] == s.rings[k][j]
    ensures t.procs[t.current.value].ticksAlloc == s.procs[Order(s.rings[k])[j]].ticksAlloc
    ensures SlicesOn(s, k, j + 1, AfterSlice(t, k))
  {
    NextCurrent(s, k, j, t);
    OrderNoDup(s.rings[k], j);
    NextOn(s, k, j, t);
  }

  lemma NextOn<P>(s: Sched<P>, k: nat, j: nat, t: Sched<P>)
    requires WellFormed(s) && WellFormed(t) && k < NUM_PRIO && j < |s.rings[k]| && |t.rings[k]| >= 2
    requires SlicesOn(s, k, j, t)
    requires t.current == Some(Order(s.rings[k])[j]) && t.current.value in t.rings[k] && t.current.value != t.rings[k][0]
    requires Order(s.rings[k])[j] !in Order(s.rings[k])[..j]
    ensures SlicesOn(s, k, j + 1, AfterSlice(t, k))
  {
    hide Order, NoDup, Gained;
    var r, o := s.rings[k], Order(s.rings[k]);
    RotateOnce(r, j);
    SliceGains(t, k);
    assert o[..j + 1] == o[..j] + [o[j]];
    GainMore(t.procs, AfterSlice(t, k).procs, o[j], t.rings[k], r, j);
    GainOne(s.procs, t.procs, AfterSlice(t, k).procs, o[..j], o[j], r);
    assert AfterSlice(t, k).rings == s.rings[k := r[j + 1..] + r[..j + 1]];
  }

  /** A slice gives its ticks to the current process and touches the ring only. */
  lemma SliceGains<P>(t: Sched<P>, k: nat)
    requires WellFormed(t) && k < NUM_PRIO && |t.rings[k]| >= 2
    requires t.current.Some? && t.current.value in t.rings[k] && t.current.value != t.rings[k][0]
    ensures Gained(t.procs, AfterSlice(t, k).procs, [t.current.value], t.rings[k])
  {
  }

  lemma GainMore<P>(before: map<P, Proc>, after: map<P, Proc>, x: P, turned: seq<P>, r: seq<P>, j: nat)
    requires Gained(before, after, [x], turned) && j <= |r| && turned == r[j..] + r[..j]
    ensures Gained(before, after, [x], r)
  {
    assert r == r[..j] + r[j..];
    assert forall p :: p in turned <==> p in r;
  }

  lemma NextCurrent<P>(s: Sched<P>, k: nat, j: nat, t: Sched<P>)
    requires Sharing(s, k) && AllFit(s, k) && j < |s.rings[k]| && SlicesOn(s, k, j, t) && Sharing(t, k)
    ensures NoOverflow(t) && t.current == Some(Order(s.rings[k])[j]) && t.rings[k][0] == s.rings[k][j]
    ensures t.procs[t.current.value].ticksAlloc == s.procs[Order(s.rings[k])[j]].ticksAlloc
  {
    var r := s.rings[k];
    LastOfTurned(r, j);
    OrderNoDup(r, j);
    assert t.rings[k] == r[j..] + r[..j];
    var i :| 0 <= i < |r| && r[i] == Order(r)[j];
  }

  lemma SliceSumNext<P>(procs: map<P, Proc>, o: seq<P>, j: nat)
    requires 0 < j <= |o| && forall i :: 0 <= i < |o| ==> o[i] in procs
    ensures SliceSum(procs, o[..j]) == SliceSum(procs, o[..j - 1]) + procs[o[j - 1]].ticksAlloc
  {
    assert o[..j][..j - 1] == o[..j - 1];
  }

  /** After `total` ticks exactly j slices are over. */
  ghost predicate SlicesOver<P>(s: Sched<P>, k: nat, j: nat, total: nat) {
    && WellFormed(s) && k < NUM_PRIO && j <= |s.rings[k]|
    && total == SliceSum(s.procs, Order(s.rings[k])[..j])
    && SlicesOn(s, k, j, Ticks(s, total)) && Sharing(Ticks(s, total), k)
    && Dispatched(s, total) == s.rings[k][..j]
  }

  lemma NoSlices<P>(s: Sched<P>, k: nat)
    requires Sharing(s, k)
    ensures SlicesOver(s, k, 0, 0)
  {
    hide Tick, NoDup;
    assert s.rings[k][0..] + s.rings[k][..0] == s.rings[k];
  }

  lemma OneMoreSlice<P>(s: Sched<P>, k: nat, j: nat, total: nat) returns (a: nat)
    requires Sharing(s, k) && AllFit(s, k) && j < |s.rings[k]| && SlicesOver(s, k, j, total)
    ensures SlicesOver(s, k, j + 1, total + a)
  {
    var t := Ticks(s, total);
    NextSlice(s, k, j, t);
    a := SliceRuns(t, k);
    hide *;
    JoinSlices(s, k, j, total, t, a);
  }

  lemma JoinSlices<P>(s: Sched<P>, k: nat, j: nat, total: nat, t: Sched<P>, a: nat)
    requires SlicesOver(s, k, j, total) && j < |s.rings[k]| && t == Ticks(s, total)
    requires a == s.procs[Order(s.rings[k])[j]].ticksAlloc
    requires SlicesOn(s, k, j + 1, Ticks(t, a)) && Sharing(Ticks(t, a), k) && Dispatched(t, a) == [s.rings[k][j]]
    ensures SlicesOver(s, k, j + 1, total + a)
  {
    hide Sharing, SlicesOn, Tick, Ticks, Dispatched, NoDup;
    TicksAdd(s, total, a);
    DispatchedAdd(s, total, a);
    SliceSumNext(s.procs, Order(s.rings[k]), j + 1);
    assert s.rings[k][..j + 1] == s.rings[k][..j] + [s.rings[k][j]];
  }

  lemma {:induction false} AfterSlices<P>(s: Sched<P>, k: nat, j: nat) returns (total: nat)
    requires Sharing(s, k) && AllFit(s, k) && j <= |s.rings[k]|
    ensures SlicesOver(s, k, j, total)
    decreases j
  {
    hide SlicesOver, Tick;
    if j == 0 {
      total := 0;
      NoSlices(s, k);
    } else {
      total := AfterSlices(s, k, j - 1);
      var a := OneMoreSlice(s, k, j - 1, total);
      total := total + a;
    }
  }

  /** The state after one period: every process of ring k has run its slice once. */
  function PeriodLater<P>(s: Sched<P>, k: nat): Sched<P>
    requires WellFormed(s) && k < NUM_PRIO
  {
    s.(procs := map p | p in s.procs ::
         if p in s.rings[k] then s.procs[p].(ticksRun := s.procs[p].ticksRun + s.procs[p].ticksAlloc) else s.procs[p])
  }

  /** `period` ticks on: each process of ring k was dispatched once, in ring order, and
      gained its slice; everything else is as before and sharing goes on. */
  ghost predicate PeriodOver<P>(s: Sched<P>, k: nat, period: nat) {
    && WellFormed(s) && k < NUM_PRIO
    && period == SliceSum(s.procs, Order(s.rings[k]))
    && Ticks(s, period) == PeriodLater(s, k) && Dispatched(s, period) == s.rings[k] && Sharing(PeriodLater(s, k), k)
  }

  /** Proportional share. While the highest ring in use keeps at least two processes, all
      runnable and aligned, over each period of sum(ticks_alloc) ticks every one of them
      is dispatched exactly once, in ring order, and gains exactly its ticks_alloc ticks;
      nothing else changes, so the next period is the same. */
  lemma ProportionalShare<P>(s: Sched<P>, k: nat)
    requires Sharing(s, k) && AllFit(s, k)
    ensures exists period :: PeriodOver(s, k, period)
  {
    var n := |s.rings[k]|;
    hide SlicesOver, Tick, Ticks, Dispatched;
    var total := AfterSlices(s, k, n);
    FullPeriod(s, k, total);
  }

  lemma FullPeriod<P>(s: Sched<P>, k: nat, total: nat)
    requires Sharing(s, k) && SlicesOver(s, k, |s.rings[k]|, total)
    ensures PeriodOver(s, k, total)
  {
    hide Tick, Ticks, Dispatched, NoDup, SlicesOn;
    var r := s.rings[k];
    assert Order(r)[..|r|] == Order(r) && r[..|r|] == r;
    SamePeriodState(s, k, Ticks(s, total));
  }

  lemma OrderIsRing<P>(r: seq<P>)
    ensures forall p :: p in Order(r) <==> p in r
  {
    if r != [] { assert r == r[..|r| - 1] + [r[|r| - 1]]; }
  }

  lemma SamePeriodState<P>(s: Sched<P>, k: nat, t: Sched<P>)
    requires Sharing(s, k) && Sharing(t, k) && SlicesOn(s, k, |s.rings[k]|, t)
    ensures t == PeriodLater(s, k)
  {
    var r := s.rings[k];
    OrderIsRing(r);
    assert Order(r)[..|r|] == Order(r) && r[|r|..] + r[..|r|] == r && t.rings == s.rings;
    hide Order, NoDup, Gained;
    SharingStates(s, k, t);
    AllGained(s.procs, t.procs, Order(r), r);
  }

  lemma AllGained<P>(before: map<P, Proc>, after: map<P, Proc>, who: seq<P>, r: seq<P>)
    requires Gained(before, after, who, r) && forall p :: p in who <==> p in r
    requires forall p :: p in r ==> p in before && after[p].state == before[p].state
    ensures after == map p | p in before ::
                       if p in r then before[p].(ticksRun := before[p].ticksRun + before[p].ticksAlloc) else before[p]
  {
  }

  /** The regime fixes every state in the ring. */
  lemma SharingStates<P>(s: Sched<P>, k: nat, t: Sched<P>)
    requires Sharing(s, k) && Sharing(t, k) && t.rings == s.rings
    ensures t.current == s.current && t.active == s.active
    ensures forall p :: p in s.rings[k] ==> p in s.procs && p in t.procs && t.procs[p].state == s.procs[p].state
  {
    hide NoDup;
  }

  /** `scheduler_start`; `None` is its panic. */
  function Started<P>(s: Sched<P>): Option<Sched<P>>
    requires WellFormed(s)
  {
    var (n, rings) := Pick(s.rings, s.procs, NUM_PRIO);
    PickedIsKnown(s.rings, s.procs, NUM_PRIO);
    if n.None? then None
    else Some(Sched(rings, s.procs[n.value := s.procs[n.value].(state := Running)], n, true))
  }

  /** Starting with every process of the highest ring in use ready and at a slice
      boundary enters the regime of proportional share. */
  lemma StartBeginsSharing<P>(s: Sched<P>, k: nat)
    requires WellFormed(s) && k < NUM_PRIO && |s.rings[k]| >= 2
    requires forall j :: k < j < NUM_PRIO ==> s.rings[j] == []
    requires forall i :: 0 <= i < |s.rings[k]| ==>
               s.procs[s.rings[k][i]].state == Ready
               && s.procs[s.rings[k][i]].ticksRun % s.procs[s.rings[k][i]].ticksAlloc == 0
    ensures Started(s).Some? && Sharing(Started(s).value, k)
    ensures Started(s).value.current == Some(s.rings[k][0])
  {
    var r := s.rings[k];
    assert ReadyHead(s.rings, s.procs, k);
    PickFromTop(s.rings, s.procs, k, NUM_PRIO);
    PickKeepsRings(s.rings, s.procs);
    hide Pick;
    var t := Started(s).value;
    forall i | 0 <= i < |r|
      ensures t.rings[k][i] == if i < |r| - 1 then r[i + 1] else r[0]
    {
    }
  }

  lemma StartMakesOneRunner<P>(s: Sched<P>)
    requires WellFormed(s) && forall p :: p in s.procs ==> s.procs[p].state != Running
    ensures Started(s).Some? ==> OneRunner(Started(s).value)
  {
    PickedIsKnown(s.rings, s.procs, NUM_PRIO);
  }

  // ---------------------------------------------------------------------
  // Queueing
  // ---------------------------------------------------------------------

  /** `scheduler_add`: p goes to the tail of ring k and becomes ready. */
  function Added<P>(s: Sched<P>, p: P, k: nat): Sched<P>
    requires |s.rings| == NUM_PRIO && k < NUM_PRIO && p in s.procs
  {
    s.(rings := s.rings[k := s.rings[k] + [p]], procs := s.procs[p := s.procs[p].(state := Ready)])
  }

  function Without<T(==)>(r: seq<T>, p: T): (q: seq<T>)
    ensures p !in r ==> q == r
  {
    if r == [] then [] else if r[0] == p then r[1..] else [r[0]] + Without(r[1..], p)
  }

  lemma {:induction false} WithoutAt<T>(r: seq<T>, i: nat)
    requires NoDup(r) && i < |r|
    ensures Without(r, r[i]) == r[..i] + r[i + 1..]
  {
    if i > 0 {
      assert r[0] != r[i];
      WithoutAt(r[1..], i - 1);
      assert r[1..][..i - 1] == r[1..i] && r[..i] == [r[0]] + r[1..i];
    }
  }

  /** `scheduler_remove` of a process of ring k. */
  function Removed<P>(s: Sched<P>, p: P, k: nat): Sched<P>
    requires |s.rings| == NUM_PRIO && k < NUM_PRIO
  {
    s.(rings := s.rings[k := Without(s.rings[k], p)])
  }

  function Marked<P>(s: Sched<P>, p: P, state: ProcessState): Sched<P>
    requires p in s.procs
  {
    s.(procs := s.procs[p := s.procs[p].(state := state)])
  }

  /** What the kernel does to the scheduler once it is started. */
  datatype Action<P> = ATick | AAdd(p: P, k: nat) | ABlock(p: P, k: nat) | AUnblock(p: P, k: nat)

  /** Removing p from ring k would leave the list's last link behind. */
  predicate HeadOfMany<P(==)>(s: Sched<P>, p: P, k: nat) {
    k < |s.rings| && |s.rings[k]| >= 2 && s.rings[k][0] == p
  }

  /** The state after one action, if the lists of the source survive it: the process is
      known, to be added it is not queued, to be blocked it does not head others. */
  function Act<P>(s: Sched<P>, a: Action<P>): Option<Sched<P>>
    requires WellFormed(s)
  {
    match a
    case ATick => Some(Tick(s))
    case AAdd(p, k) => if k < NUM_PRIO && p in s.procs && p !in s.rings[k] then Some(Added(s, p, k)) else None
    case ABlock(p, k) =>
      if k < NUM_PRIO && p in s.procs && !HeadOfMany(s, p, k) then Some(Removed(Marked(s, p, Blocked), p, k))
      else None
    case AUnblock(p, k) =>
      if k < NUM_PRIO && p in s.procs && p !in s.rings[k] then Some(Added(Marked(s, p, Ready), p, k)) else None
  }

  lemma {:induction false} WithoutKeeps<T>(r: seq<T>, p: T)
    requires NoDup(r)
    ensures NoDup(Without(r, p)) && forall x :: x in Without(r, p) <==> x in r && x != p
  {
    if p in r {
      var i :| 0 <= i < |r| && r[i] == p;
      WithoutAt(r, i);
      CutKeeps(r, i);
      hide NoDup;
    }
  }

  lemma CutKeeps<T>(r: seq<T>, i: nat)
    requires NoDup(r) && i < |r|
    ensures NoDup(r[..i] + r[i + 1..]) && forall x :: x in r[..i] + r[i + 1..] <==> x in r && x != r[i]
  {
    var q := r[..i] + r[i + 1..];
    assert forall k :: 0 <= k < |q| ==> q[k] == if k < i then r[k] else r[k + 1];
    forall x | x in r && x != r[i]
      ensures x in q
    {
      var j :| 0 <= j < |r| && r[j] == x;
      assert q[if j < i then j else j - 1] == x;
    }
  }

  lemma {:induction false} WithoutKnown<P>(r: seq<P>, p: P, procs: map<P, Proc>)
    requires forall i :: 0 <= i < |r| ==> r[i] in procs
    ensures forall i :: 0 <= i < |Without(r, p)| ==> Without(r, p)[i] in procs
  {
    if r != [] && r[0] != p { WithoutKnown(r[1..], p, procs); }
  }

  lemma ActKeeps<P>(s: Sched<P>, a: Action<P>)
    requires WellFormed(s) && OneRunner(s) && Act(s, a).Some?
    ensures WellFormed(Act(s, a).value) && OneRunner(Act(s, a).value)
  {
    match a
    case ATick =>
      TickKeepsWellFormed(s);
      TickKeepsOneRunner(s);
    case AAdd(p, k) =>
    case ABlock(p, k) =>
      WithoutKeeps(s.rings[k], p);
      WithoutKnown(s.rings[k], p, s.procs);
    case AUnblock(p, k) =>
  }

  /** The state after a run of actions; one that is not allowed is skipped. */
  function ActAll<P>(s: Sched<P>, actions: seq<Action<P>>): (t: Sched<P>)
    requires WellFormed(s) && OneRunner(s)
    ensures WellFormed(t) && OneRunner(t)
    decreases |actions|
  {
    if actions == [] then s
    else
      var before := ActAll(s, actions[..|actions| - 1]);
      match Act(before, actions[|actions| - 1])
      case None => before
      case Some(after) => ActKeeps(before, actions[|actions| - 1]); after
  }

  /** Over every run from one `scheduler_start`, at most one process is running, and it
      is the current one. */
  lemma AtMostOneRunning<P>(s: Sched<P>, actions: seq<Action<P>>, p: P, q: P)
    requires WellFormed(s) && (forall x :: x in s.procs ==> s.procs[x].state != Running) && Started(s).Some?
    ensures WellFormed(Started(s).value) && OneRunner(Started(s).value)
    ensures var t := ActAll(Started(s).value, actions);
            && (p in t.procs && t.procs[p].state == Running ==> t.current == Some(p))
            && (p in t.procs && q in t.procs && t.procs[p].state == Running && t.procs[q].state == Running ==> p == q)
  {
    hide Act;
    StartMakesOneRunner(s);
    PickKeepsRings(s.rings, s.procs);
    PickedIsKnown(s.rings, s.procs, NUM_PRIO);
  }

  /** "Highest non-empty queue first" holds of ring heads only: at the end of its slice
      the sole, still runnable process of the top ring loses the processor to the
      ready head of a lower ring. */
  lemma SoleTopProcessYields<P>(s: Sched<P>, hi: nat, lo: nat)
    requires WellFormed(s) && s.active && lo < hi < NUM_PRIO && |s.rings[hi]| == 1
    requires s.current == Some(s.rings[hi][0]) && s.procs[s.rings[hi][0]].state == Running
    requires (s.procs[s.rings[hi][0]].ticksRun + 1) % 0x1_0000_0000 % s.procs[s.rings[hi][0]].ticksAlloc == 0
    requires forall j :: lo < j < NUM_PRIO && j != hi ==> s.rings[j] == []
    requires ReadyHead(s.rings, s.procs, lo)
    ensures Tick(s).current == Some(s.rings[lo][0])
  {
    var c := s.current.value;
    var s1 := Counted(s, c);
    assert ReadyHead(s1.rings, s1.procs, lo) && !ReadyHead(s1.rings, s1.procs, hi);
    hide Pick, TurnedFrom, Rotate, NoDup;
    TopmostReady(s1.rings, s1.procs, lo);
  }

  lemma TopmostReady<P>(rings: seq<seq<P>>, procs: map<P, Proc>, k: nat)
    requires Known(rings, procs) && k < NUM_PRIO && ReadyHead(rings, procs, k)
    requires forall j :: k < j < NUM_PRIO ==> !ReadyHead(rings, procs, j)
    ensures Pick(rings, procs, NUM_PRIO).0 == Some(rings[k][0])
  {
    var level := PickIsHighestReadyHead(rings, procs, NUM_PRIO);
    hide Pick, TurnedFrom;
    assert level == k;
  }

  /** A pick serves the highest non-empty ring exactly if the head of that ring is
      ready; it never looks behind the head. */
  lemma TopRingIsServed<P>(rings: seq<seq<P>>, procs: map<P, Proc>, top: nat)
    requires Known(rings, procs) && top < NUM_PRIO && rings[top] != []
    requires forall k :: top < k < NUM_PRIO ==> rings[k] == []
    requires forall k :: 0 <= k < NUM_PRIO && k != top ==> forall p :: p in rings[k] ==> p !in rings[top]
    ensures (Pick(rings, procs, NUM_PRIO).0.Some? && Pick(rings, procs, NUM_PRIO).0.value in rings[top])
            <==> ReadyHead(rings, procs, top)
  {
    var level := PickIsHighestReadyHead(rings, procs, NUM_PRIO);
    hide Pick, TurnedFrom;
    if level >= 0 {
      assert rings[level][0] in rings[level];
      assert level <= top;
    }
  }

  /** A tick changes at most two states: whoever it dispatches is RUNNING, and the
      process that ran before is READY again unless it was blocked or had ended. */
  lemma TickStates<P>(s: Sched<P>, q: P)
    requires WellFormed(s) && q in s.procs
    ensures q in Tick(s).procs
    ensures Tick(s).procs[q].state ==
            if Tick(s).current == s.current then s.procs[q].state
            else if Tick(s).current == Some(q) then Running
            else if s.current == Some(q) && s.procs[q].state == Running then Ready
            else s.procs[q].state
    ensures Tick(s).procs[q].ticksAlloc == s.procs[q].ticksAlloc
  {
    hide Pick;
    TickKeepsWellFormed(s);
  }

  /** Who arrives is last in its ring and READY, who is blocked is in it no more and
      BLOCKED; nobody else's place or state changes. */
  lemma ArriveAndBlock<P>(s: Sched<P>, p: P, k: nat, q: P, j: nat)
    requires WellFormed(s) && p in s.procs && q in s.procs && k < NUM_PRIO && j < NUM_PRIO
    ensures var t := Added(s, p, k);
            && t.rings[j] == (if j == k then s.rings[j] + [p] else s.rings[j])
            && t.procs[q] == if q == p then s.procs[q].(state := Ready) else s.procs[q]
    ensures var t := Removed(Marked(s, p, Blocked), p, k);
            && (forall x :: x in t.rings[j] <==> x in s.rings[j] && (j != k || x != p))
            && t.procs[q] == if q == p then s.procs[q].(state := Blocked) else s.procs[q]
  {
    WithoutKeeps(s.rings[k], p);
  }
}
