/** The ring of LedgerQueue as concurrent threads: the producer, the consumer, and any
    third one that asks for the depth. One step is one load or one store: of a shared
    index, or of one word of an event (the copy in and the copy out of an event are not
    atomic). Steps of the threads alternate in any order. */
module QueueInterleaving {
  import opened Arithmetic
  import opened Wrappers
  import opened LedgerQueue

  /** Where the producer is inside a push. */
  datatype Producer<T> =
    | Resting
    | LoadedHead(ev: seq<T>, h: nat)
    | CopyingIn(ev: seq<T>, h: nat, done: nat)

  /** Where the consumer is inside a pop. */
  datatype Consumer<T> =
    | Waiting
    | LoadedTail(t: nat)
    | CopyingOut(t: nat, buf: seq<T>)

  /** How many events had been accepted and popped at some moment. */
  datatype Counts = Counts(accepted: nat, popped: nat)

  /** Where a thread is inside a depth query, with the counts at its loads. The two
      loads come in either order. */
  datatype Query =
    | Idle
    | SeenHead(h: nat, atHead: Counts)
    | SeenTail(t: nat, atTail: Counts)
    | Answered(depth: nat, atHead: Counts, atTail: Counts)

  datatype Asker = TheProducer | TheConsumer | Observer

  /** Shared memory, the threads, and the histories of pushes and pops. */
  datatype State<T> = State(
    slots: seq<seq<T>>, head: nat, tail: nat,
    prod: Producer<T>, cons: Consumer<T>,
    accepted: seq<seq<T>>, popped: seq<seq<T>>,
    queries: map<Asker, Query>)

  datatype Step<T> =
    | CallPush(ev: seq<T>)  // load head
    | TestFull              // load tail
    | StoreWord             // one word into the slot
    | PublishHead           // store head
    | CallPop               // load tail
    | TestEmpty             // load head
    | LoadWord              // one word out of the slot
    | PublishTail           // store tail
    | LoadDepthHead(who: Asker)
    | LoadDepthTail(who: Asker)

  function Asked<T>(s: State<T>, who: Asker): Query {
    if who in s.queries then s.queries[who] else Idle
  }

  predicate Asking(q: Query) {
    q.SeenHead? || q.SeenTail?
  }

  /** A thread asks for the depth between its own calls. */
  predicate MayAsk<T>(s: State<T>, who: Asker) {
    (who == TheProducer ==> s.prod.Resting?) && (who == TheConsumer ==> s.cons.Waiting?)
  }

  function Current<T>(s: State<T>): Counts {
    Counts(|s.accepted|, |s.popped|)
  }

  /** One load of the depth query: the first starts it, the second answers. */
  function LoadForDepth<T>(s: State<T>, who: Asker, head: bool, n: nat): Option<State<T>>
    requires n > 0
  {
    var q := Asked(s, who);
    if !MayAsk(s, who) || (head && q.SeenHead?) || (!head && q.SeenTail?) then None
    else
      var next :=
        if head then
          if q.SeenTail? then Answered((s.head - q.t) % n, Current(s), q.atTail) else SeenHead(s.head, Current(s))
        else
          if q.SeenHead? then Answered((q.h - s.tail) % n, q.atHead, Current(s)) else SeenTail(s.tail, Current(s));
      Some(s.(queries := s.queries[who := next]))
  }

  /** One step in a ring of n slots of w words; `None` if the thread is elsewhere. */
  function Take<T>(s: State<T>, step: Step<T>, n: nat, w: nat): Option<State<T>>
    requires n > 0
  {
    match step
    case CallPush(ev) =>
      if s.prod.Resting? && |ev| == w && !Asking(Asked(s, TheProducer)) then Some(s.(prod := LoadedHead(ev, s.head))) else None
    case TestFull =>
      if !s.prod.LoadedHead? then None
      else if (s.prod.h + 1) % n == s.tail then Some(s.(prod := Resting))
      else Some(s.(prod := CopyingIn(s.prod.ev, s.prod.h, 0)))
    case StoreWord =>
      if s.prod.CopyingIn? && s.prod.done < |s.prod.ev| && s.prod.h < |s.slots| && s.prod.done < |s.slots[s.prod.h]| then
        var slot := s.slots[s.prod.h][s.prod.done := s.prod.ev[s.prod.done]];
        Some(s.(slots := s.slots[s.prod.h := slot], prod := s.prod.(done := s.prod.done + 1)))
      else None
    case PublishHead =>
      if s.prod.CopyingIn? && s.prod.done == |s.prod.ev| then
        Some(s.(head := (s.prod.h + 1) % n, prod := Resting, accepted := s.accepted + [s.prod.ev]))
      else None
    case CallPop =>
      if s.cons.Waiting? && !Asking(Asked(s, TheConsumer)) then Some(s.(cons := LoadedTail(s.tail))) else None
    case TestEmpty =>
      if !s.cons.LoadedTail? then None
      else if s.cons.t == s.head then Some(s.(cons := Waiting))
      else Some(s.(cons := CopyingOut(s.cons.t, [])))
    case LoadWord =>
      if s.cons.CopyingOut? && |s.cons.buf| < w && s.cons.t < |s.slots| && |s.cons.buf| < |s.slots[s.cons.t]| then
        Some(s.(cons := s.cons.(buf := s.cons.buf + [s.slots[s.cons.t][|s.cons.buf|]])))
      else None
    case PublishTail =>
      if s.cons.CopyingOut? && |s.cons.buf| == w then
        Some(s.(tail := (s.cons.t + 1) % n, cons := Waiting, popped := s.popped + [s.cons.buf]))
      else None
    case LoadDepthHead(who) => LoadForDepth(s, who, true, n)
    case LoadDepthTail(who) => LoadForDepth(s, who, false, n)
  }

  function Start<T>(slots: seq<seq<T>>): State<T> {
    State(slots, 0, 0, Resting, Waiting, [], [], map[])
  }

  /** All states a sequence of steps passes; a step whose thread is elsewhere is skipped. */
  function Run<T>(s: State<T>, steps: seq<Step<T>>, n: nat, w: nat): State<T>
    requires n > 0
    decreases |steps|
  {
    if steps == [] then s
    else
      var before := Run(s, steps[..|steps| - 1], n, w);
      match Take(before, steps[|steps| - 1], n, w)
      case None => before
      case Some(after) => after
  }

  /** Published events sit untouched in their slots, in order. */
  ghost predicate Published<T>(s: State<T>, n: nat, w: nat)
    requires n > 0
  {
    && |s.slots| == n && (forall i :: 0 <= i < n ==> |s.slots[i]| == w)
    && |s.popped| <= |s.accepted| <= |s.popped| + n - 1
    && s.head == Slot(|s.accepted|, n) && s.tail == Slot(|s.popped|, n)
    && (forall k {:trigger s.accepted[k]} :: |s.popped| <= k < |s.accepted| ==> s.slots[Slot(k, n)] == s.accepted[k])
  }

  ghost predicate ProducerOk<T>(s: State<T>, n: nat, w: nat)
    requires n > 0 && Published(s, n, w)
  {
    match s.prod
    case Resting => true
    case LoadedHead(ev, h) => |ev| == w && h == s.head
    case CopyingIn(ev, h, done) =>
      && |ev| == w && h == s.head && done <= w
      && |s.accepted| < |s.popped| + n - 1
      && s.slots[h][..done] == ev[..done]
  }

  ghost predicate ConsumerOk<T>(s: State<T>, n: nat, w: nat)
    requires n > 0 && Published(s, n, w)
  {
    match s.cons
    case Waiting => true
    case LoadedTail(t) => t == s.tail
    case CopyingOut(t, buf) =>
      && t == s.tail && |s.popped| < |s.accepted| && |buf| <= w
      && |s.accepted[|s.popped|]| == w
      && buf == s.accepted[|s.popped|][..|buf|]
  }

  ghost predicate Consistent<T>(s: State<T>, n: nat, w: nat)
    requires n >= 2
  {
    && Published(s, n, w) && ProducerOk(s, n, w) && ConsumerOk(s, n, w)
    && s.popped == s.accepted[..|s.popped|]
    && (forall k :: 0 <= k < |s.accepted| ==> |s.accepted[k]| == w)
  }

  /** The slot being filled holds no published event. */
  lemma FilledSlotIsFree<T>(s: State<T>, k: nat, n: nat, w: nat)
    requires n >= 2 && Consistent(s, n, w) && |s.popped| <= k < |s.accepted|
    ensures Slot(k, n) != s.head
  {
    WithinOneLap(|s.accepted|, k, n);
  }

  lemma StoreKeeps<T>(s: State<T>, t: State<T>, n: nat, w: nat)
    requires n >= 2 && Consistent(s, n, w) && Take(s, StoreWord, n, w) == Some(t)
    ensures Consistent(t, n, w)
  {
    forall k {:trigger t.accepted[k]} | |t.popped| <= k < |t.accepted|
      ensures t.slots[Slot(k, n)] == t.accepted[k]
    {
      FilledSlotIsFree(s, k, n, w);
      assert s.slots[Slot(k, n)] == s.accepted[k];
    }
    var h, done := s.prod.h, s.prod.done;
    assert t.slots[h][..done + 1] == s.slots[h][..done] + [s.prod.ev[done]];
    assert s.prod.ev[..done + 1] == s.prod.ev[..done] + [s.prod.ev[done]];
  }

  lemma PublishHeadKeeps<T>(s: State<T>, t: State<T>, n: nat, w: nat)
    requires n >= 2 && Consistent(s, n, w) && Take(s, PublishHead, n, w) == Some(t)
    ensures Consistent(t, n, w)
  {
    NextPosition(|s.accepted|, n);
    var h, ev := s.prod.h, s.prod.ev;
    assert s.slots[h] == s.slots[h][..w] == ev[..w] == ev;
    forall k {:trigger t.accepted[k]} | |t.popped| <= k < |t.accepted|
      ensures t.slots[Slot(k, n)] == t.accepted[k]
    {
      if k < |s.accepted| { assert t.accepted[k] == s.accepted[k]; }
    }
  }

  lemma LoadKeeps<T>(s: State<T>, t: State<T>, n: nat, w: nat)
    requires n >= 2 && Consistent(s, n, w) && Take(s, LoadWord, n, w) == Some(t)
    ensures Consistent(t, n, w)
  {
    var oldest := s.accepted[|s.popped|];
    assert s.slots[s.tail] == oldest;
    assert oldest[..|s.cons.buf| + 1] == oldest[..|s.cons.buf|] + [oldest[|s.cons.buf|]];
  }

  lemma PublishTailKeeps<T>(s: State<T>, t: State<T>, n: nat, w: nat)
    requires n >= 2 && Consistent(s, n, w) && Take(s, PublishTail, n, w) == Some(t)
    ensures Consistent(t, n, w)
  {
    NextPosition(|s.popped|, n);
    assert s.cons.buf == s.accepted[|s.popped|];
    assert s.accepted[..|s.popped| + 1] == s.accepted[..|s.popped|] + [s.accepted[|s.popped|]];
  }

  /** A push is refused exactly when n - 1 events are held at its load of the tail. */
  lemma RefusedOnlyWhenFull<T>(s: State<T>, t: State<T>, n: nat, w: nat)
    requires n >= 2 && Consistent(s, n, w) && Take(s, TestFull, n, w) == Some(t)
    ensures Consistent(t, n, w)
    ensures t.prod.Resting? <==> |s.accepted| - |s.popped| == n - 1
  {
    NextPosition(|s.accepted|, n);
    LapTest(|s.popped|, |s.accepted| - |s.popped| + 1, n);
    if t.prod.CopyingIn? { assert t.slots[t.prod.h][..0] == t.prod.ev[..0]; }
  }

  /** A pop finds the ring empty exactly when nothing is held at its load of the head. */
  lemma EmptyOnlyWhenEmpty<T>(s: State<T>, t: State<T>, n: nat, w: nat)
    requires n >= 2 && Consistent(s, n, w) && Take(s, TestEmpty, n, w) == Some(t)
    ensures Consistent(t, n, w)
    ensures t.cons.Waiting? <==> |s.accepted| == |s.popped|
  {
    WithinOneLap(|s.accepted|, |s.popped|, n);
  }

  /** Every step of either thread keeps the invariant. */
  lemma StepKeeps<T>(s: State<T>, step: Step<T>, t: State<T>, n: nat, w: nat)
    requires n >= 2 && Consistent(s, n, w) && Take(s, step, n, w) == Some(t)
    ensures Consistent(t, n, w)
  {
    match step
    case CallPush(_) =>
    case TestFull => RefusedOnlyWhenFull(s, t, n, w);
    case StoreWord => StoreKeeps(s, t, n, w);
    case PublishHead => PublishHeadKeeps(s, t, n, w);
    case CallPop =>
    case TestEmpty => EmptyOnlyWhenEmpty(s, t, n, w);
    case LoadWord => LoadKeeps(s, t, n, w);
    case PublishTail => PublishTailKeeps(s, t, n, w);
    case LoadDepthHead(_) =>
    case LoadDepthTail(_) =>
  }

  lemma {:induction false} RunKeeps<T>(slots: seq<seq<T>>, steps: seq<Step<T>>, n: nat, w: nat)
    requires n >= 2 && |slots| == n && forall i :: 0 <= i < n ==> |slots[i]| == w
    ensures Consistent(Run(Start(slots), steps, n, w), n, w)
    decreases |steps|
  {
    if steps != [] {
      var front, last := steps[..|steps| - 1], steps[|steps| - 1];
      RunKeeps(slots, front, n, w);
      var before := Run(Start(slots), front, n, w);
      match Take(before, last, n, w)
      case None =>
      case Some(after) => StepKeeps(before, last, after, n, w);
    }
  }

  /** The events that callers passed to pushes in a run, in order, without those whose
      push was refused. */
  ghost function Pushed<T>(slots: seq<seq<T>>, steps: seq<Step<T>>, n: nat, w: nat): seq<seq<T>>
    requires n > 0
    decreases |steps|
  {
    if steps == [] then []
    else
      var front := steps[..|steps| - 1];
      var earlier := Pushed(slots, front, n, w);
      var before, after := Run(Start(slots), front, n, w), Run(Start(slots), steps, n, w);
      match steps[|steps| - 1]
      case CallPush(ev) => if before.prod.Resting? && !after.prod.Resting? then earlier + [ev] else earlier
      case TestFull => if !before.prod.Resting? && after.prod.Resting? && earlier != []
                       then earlier[..|earlier| - 1] else earlier
      case _ => earlier
  }

  /** The event of a push that has begun and has not returned. */
  function InFlight<T>(p: Producer<T>): seq<seq<T>> {
    if p.Resting? then [] else [p.ev]
  }

  lemma {:induction false} PushedAreAccepted<T>(slots: seq<seq<T>>, steps: seq<Step<T>>, n: nat, w: nat)
    requires n > 0
    ensures var s := Run(Start(slots), steps, n, w); s.accepted + InFlight(s.prod) == Pushed(slots, steps, n, w)
    decreases |steps|
  {
    if steps != [] {
      var front, last := steps[..|steps| - 1], steps[|steps| - 1];
      PushedAreAccepted(slots, front, n, w);
      var before := Run(Start(slots), front, n, w);
      match Take(before, last, n, w)
      case None =>
      case Some(after) => StepAccepts(before, last, after, n, w);
    }
  }

  /** What one step does to the accepted events and the one in flight. */
  lemma StepAccepts<T>(s: State<T>, step: Step<T>, t: State<T>, n: nat, w: nat)
    requires n > 0 && Take(s, step, n, w) == Some(t)
    ensures var held, now := s.accepted + InFlight(s.prod), t.accepted + InFlight(t.prod);
            match step
            case CallPush(ev) => s.prod.Resting? && !t.prod.Resting? && now == held + [ev]
            case TestFull => !s.prod.Resting? && held != [] && now == if t.prod.Resting? then held[..|held| - 1] else held
            case _ => now == held
  {
  }

  /** In every run, the accepted events and then the one in flight are the events that
      callers passed in, whole and in order, without the refused ones; so what is popped
      is a prefix of them. */
  lemma PopsWhatWasPushed<T>(slots: seq<seq<T>>, steps: seq<Step<T>>, n: nat, w: nat)
    requires n >= 2 && |slots| == n && forall i :: 0 <= i < n ==> |slots[i]| == w
    ensures var s := Run(Start(slots), steps, n, w);
            s.accepted + InFlight(s.prod) == Pushed(slots, steps, n, w) && s.popped <= Pushed(slots, steps, n, w)
  {
    PushedAreAccepted(slots, steps, n, w);
    EveryInterleavingIsFifo(slots, steps, n, w);
  }

  /** The ring never blocks: whatever the other threads are doing, a thread that is not
      inside a depth query has a step to take. */
  lemma NeverStuck<T>(s: State<T>, ev: seq<T>, n: nat, w: nat)
    requires n >= 2 && Consistent(s, n, w) && |ev| == w
    ensures !Asking(Asked(s, TheProducer)) ==>
              Take(s, match s.prod
                      case Resting => CallPush(ev)
                      case LoadedHead(_, _) => TestFull
                      case CopyingIn(_, _, done) => if done < w then StoreWord else PublishHead, n, w).Some?
    ensures !Asking(Asked(s, TheConsumer)) ==>
              Take(s, match s.cons
                      case Waiting => CallPop
                      case LoadedTail(_) => TestEmpty
                      case CopyingOut(_, buf) => if |buf| < w then LoadWord else PublishTail, n, w).Some?
  {
  }

  function Repeat<T>(step: Step<T>, k: nat): (r: seq<Step<T>>)
    ensures |r| == k
  {
    if k == 0 then [] else Repeat(step, k - 1) + [step]
  }

  lemma RunRepeat<T>(s: State<T>, step: Step<T>, n: nat, w: nat, k: nat)
    requires n > 0 && k > 0
    ensures var before := Run(s, Repeat(step, k - 1), n, w);
            Run(s, Repeat(step, k), n, w) == match Take(before, step, n, w) case None => before case Some(t) => t
  {
    assert Repeat(step, k)[..k - 1] == Repeat(step, k - 1);
  }

  lemma RunNone<T>(s: State<T>, step: Step<T>, n: nat, w: nat)
    requires n > 0
    ensures Run(s, Repeat(step, 0), n, w) == s
  {
  }

  lemma OneStore<T>(s: State<T>, ev: seq<T>, n: nat, w: nat, k: nat)
    requires n >= 2 && Consistent(s, n, w) && s.prod == CopyingIn(ev, s.head, k) && k < w
    ensures var t := Take(s, StoreWord, n, w);
            t.Some? && Consistent(t.value, n, w)
            && t.value == s.(slots := t.value.slots, prod := CopyingIn(ev, s.head, k + 1))
  {
    NeverStuck(s, ev, n, w);
    StoreKeeps(s, Take(s, StoreWord, n, w).value, n, w);
  }

  /** The pop of the oldest event after k words. */
  ghost function Loaded<T>(s: State<T>, w: nat, k: nat): State<T>
    requires |s.popped| < |s.accepted| && |s.accepted[|s.popped|]| == w && k <= w
  {
    s.(cons := CopyingOut(s.tail, s.accepted[|s.popped|][..k]))
  }

  lemma OneLoad<T>(s: State<T>, n: nat, w: nat, k: nat)
    requires n >= 2 && |s.popped| < |s.accepted| && |s.accepted[|s.popped|]| == w && k < w
    requires Consistent(Loaded(s, w, k), n, w)
    ensures Take(Loaded(s, w, k), LoadWord, n, w) == Some(Loaded(s, w, k + 1)) && Consistent(Loaded(s, w, k + 1), n, w)
  {
    var oldest := s.accepted[|s.popped|];
    assert s.slots[s.tail] == oldest;
    assert oldest[..k + 1] == oldest[..k] + [oldest[k]];
    LoadKeeps(Loaded(s, w, k), Loaded(s, w, k + 1), n, w);
  }

  lemma {:induction false} StoresRun<T>(s: State<T>, ev: seq<T>, n: nat, w: nat, k: nat)
    requires n >= 2 && Consistent(s, n, w) && s.prod == CopyingIn(ev, s.head, 0) && k <= w
    ensures var t := Run(s, Repeat(StoreWord, k), n, w);
            Consistent(t, n, w) && t == s.(slots := t.slots, prod := CopyingIn(ev, s.head, k))
    decreases k
  {
    hide *;
    RunNone(s, StoreWord, n, w);
    if k > 0 {
      StoresRun(s, ev, n, w, k - 1);
      RunRepeat(s, StoreWord, n, w, k);
      OneStore(Run(s, Repeat(StoreWord, k - 1), n, w), ev, n, w, k - 1);
    }
  }

  lemma {:induction false} RunOn<T>(s: State<T>, a: seq<Step<T>>, b: seq<Step<T>>, n: nat, w: nat)
    requires n > 0
    ensures Run(s, a + b, n, w) == Run(Run(s, a, n, w), b, n, w)
    decreases |b|
  {
    if b == [] {
      assert a + b == a;
    } else {
      RunOn(s, a, b[..|b| - 1], n, w);
      assert (a + b)[..|a + b| - 1] == a + b[..|b| - 1];
    }
  }

  lemma RunOne<T>(s: State<T>, step: Step<T>, n: nat, w: nat)
    requires n > 0
    ensures Run(s, [step], n, w) == match Take(s, step, n, w) case None => s case Some(t) => t
  {
    assert [step][..0] == [];
    assert Run(s, [step][..0], n, w) == s;
  }

  lemma PushBegins<T>(s: State<T>, ev: seq<T>, n: nat, w: nat)
    requires n >= 2 && Consistent(s, n, w) && |ev| == w && s.prod.Resting? && !Asking(Asked(s, TheProducer))
    ensures var t := Run(s, [CallPush(ev)] + [TestFull], n, w);
            Consistent(t, n, w) && t == s.(prod := if |s.accepted| - |s.popped| < n - 1 then CopyingIn(ev, s.head, 0) else Resting)
  {
    var called := s.(prod := LoadedHead(ev, s.head));
    RunOne(s, CallPush(ev), n, w);
    RunOn(s, [CallPush(ev)], [TestFull], n, w);
    RunOne(called, TestFull, n, w);
    hide Run;
    RefusedOnlyWhenFull(called, Take(called, TestFull, n, w).value, n, w);
  }

  lemma PushEnds<T>(s: State<T>, ev: seq<T>, n: nat, w: nat)
    requires n >= 2 && Consistent(s, n, w) && (s.prod.Resting? || s.prod == CopyingIn(ev, s.head, 0))
    ensures var t := Run(s, Repeat(StoreWord, w) + [PublishHead], n, w);
            && Consistent(t, n, w) && t.prod.Resting? && t.popped == s.popped
            && t.accepted == if s.prod.Resting? then s.accepted else s.accepted + [ev]
  {
    var stored := Run(s, Repeat(StoreWord, w), n, w);
    RunOn(s, Repeat(StoreWord, w), [PublishHead], n, w);
    RunOne(stored, PublishHead, n, w);
    if s.prod.Resting? {
      StoresSkipped(s, n, w, w);
    } else {
      StoresRun(s, ev, n, w, w);
      hide Run;
      PublishHeadKeeps(stored, Take(stored, PublishHead, n, w).value, n, w);
    }
  }

  /** A push left alone returns: it appends its event, or is refused in a full ring,
      after which the other steps find no push to serve. */
  lemma PushReturns<T>(s: State<T>, ev: seq<T>, n: nat, w: nat)
    requires n >= 2 && Consistent(s, n, w) && |ev| == w && s.prod.Resting? && !Asking(Asked(s, TheProducer))
    ensures var t := Run(s, [CallPush(ev)] + [TestFull] + (Repeat(StoreWord, w) + [PublishHead]), n, w);
            && t.prod.Resting? && t.popped == s.popped && Consistent(t, n, w)
            && t.accepted == if |s.accepted| - |s.popped| < n - 1 then s.accepted + [ev] else s.accepted
  {
    hide Run, Take, Consistent;
    PushBegins(s, ev, n, w);
    RunOn(s, [CallPush(ev)] + [TestFull], Repeat(StoreWord, w) + [PublishHead], n, w);
    PushEnds(Run(s, [CallPush(ev)] + [TestFull], n, w), ev, n, w);
  }

  lemma {:induction false} StoresSkipped<T>(s: State<T>, n: nat, w: nat, k: nat)
    requires n > 0 && s.prod.Resting?
    ensures Run(s, Repeat(StoreWord, k), n, w) == s
    decreases k
  {
    RunNone(s, StoreWord, n, w);
    assert Take(s, StoreWord, n, w) == None;
    hide *;
    if k > 0 {
      StoresSkipped(s, n, w, k - 1);
      RunRepeat(s, StoreWord, n, w, k);
    }
  }

  lemma {:induction false} LoadsRun<T>(s: State<T>, n: nat, w: nat, k: nat)
    requires n >= 2 && |s.popped| < |s.accepted| && |s.accepted[|s.popped|]| == w && k <= w
    requires Consistent(Loaded(s, w, 0), n, w)
    ensures Run(Loaded(s, w, 0), Repeat(LoadWord, k), n, w) == Loaded(s, w, k) && Consistent(Loaded(s, w, k), n, w)
    decreases k
  {
    hide *;
    RunNone(Loaded(s, w, 0), LoadWord, n, w);
    if k > 0 {
      LoadsRun(s, n, w, k - 1);
      RunRepeat(Loaded(s, w, 0), LoadWord, n, w, k);
      OneLoad(s, n, w, k - 1);
    }
  }

  lemma {:induction false} LoadsSkipped<T>(s: State<T>, n: nat, w: nat, k: nat)
    requires n > 0 && s.cons.Waiting?
    ensures Run(s, Repeat(LoadWord, k), n, w) == s
    decreases k
  {
    RunNone(s, LoadWord, n, w);
    assert Take(s, LoadWord, n, w) == None;
    hide *;
    if k > 0 {
      LoadsSkipped(s, n, w, k - 1);
      RunRepeat(s, LoadWord, n, w, k);
    }
  }

  lemma PopBegins<T>(s: State<T>, n: nat, w: nat)
    requires n >= 2 && Consistent(s, n, w) && s.cons.Waiting? && !Asking(Asked(s, TheConsumer))
    ensures var t := Run(s, [CallPop] + [TestEmpty], n, w);
            Consistent(t, n, w) && t == s.(cons := if |s.popped| < |s.accepted| then CopyingOut(s.tail, []) else Waiting)
  {
    var called := s.(cons := LoadedTail(s.tail));
    RunOne(s, CallPop, n, w);
    RunOn(s, [CallPop], [TestEmpty], n, w);
    RunOne(called, TestEmpty, n, w);
    hide Run;
    EmptyOnlyWhenEmpty(called, Take(called, TestEmpty, n, w).value, n, w);
  }

  lemma PopEnds<T>(s: State<T>, n: nat, w: nat)
    requires n >= 2 && Consistent(s, n, w) && (s.cons.Waiting? || s.cons == CopyingOut(s.tail, []))
    requires s.cons.CopyingOut? ==> |s.popped| < |s.accepted|
    ensures var t := Run(s, Repeat(LoadWord, w) + [PublishTail], n, w);
            && Consistent(t, n, w) && t.cons.Waiting? && t.accepted == s.accepted
            && t.popped == if s.cons.Waiting? then s.popped else s.popped + [s.accepted[|s.popped|]]
  {
    var loaded := Run(s, Repeat(LoadWord, w), n, w);
    RunOn(s, Repeat(LoadWord, w), [PublishTail], n, w);
    RunOne(loaded, PublishTail, n, w);
    if s.cons.Waiting? {
      LoadsSkipped(s, n, w, w);
    } else {
      assert s == Loaded(s, w, 0);
      LoadsRun(s, n, w, w);
      hide Run;
      PublishTailKeeps(loaded, Take(loaded, PublishTail, n, w).value, n, w);
    }
  }

  /** A pop left alone returns: with the oldest event, or with none from an empty ring. */
  lemma PopReturns<T>(s: State<T>, n: nat, w: nat)
    requires n >= 2 && Consistent(s, n, w) && s.cons.Waiting? && !Asking(Asked(s, TheConsumer))
    ensures var t := Run(s, [CallPop] + [TestEmpty] + (Repeat(LoadWord, w) + [PublishTail]), n, w);
            && t.cons.Waiting? && t.accepted == s.accepted && Consistent(t, n, w)
            && t.popped == if |s.popped| < |s.accepted| then s.popped + [s.accepted[|s.popped|]] else s.popped
  {
    hide Run, Take, Consistent;
    PopBegins(s, n, w);
    RunOn(s, [CallPop] + [TestEmpty], Repeat(LoadWord, w) + [PublishTail], n, w);
    PopEnds(Run(s, [CallPop] + [TestEmpty], n, w), n, w);
  }

  /** The guarantees of the lock-free ring under every interleaving: what is popped is
      a prefix of what was accepted, whole events in order; at most n - 1 are held; the
      two indices are that far apart; and a slot is never copied in and out at the same
      time. */
  lemma EveryInterleavingIsFifo<T>(slots: seq<seq<T>>, steps: seq<Step<T>>, n: nat, w: nat)
    requires n >= 2 && |slots| == n && forall i :: 0 <= i < n ==> |slots[i]| == w
    ensures var s := Run(Start(slots), steps, n, w);
            && s.popped <= s.accepted
            && |s.accepted| - |s.popped| <= n - 1
            && (s.head - s.tail) % n == |s.accepted| - |s.popped|
            && (s.prod.CopyingIn? && s.cons.CopyingOut? ==> s.prod.h != s.cons.t)
  {
    RunKeeps(slots, steps, n, w);
    var s := Run(Start(slots), steps, n, w);
    WithinOneLap(|s.accepted|, |s.popped|, n);
    if s.prod.CopyingIn? && s.cons.CopyingOut? { FilledSlotIsFree(s, |s.popped|, n, w); }
  }

  // ---------------------------------------------------------------------
  // The depth query
  // ---------------------------------------------------------------------

  predicate Possible(c: Counts, n: nat) {
    c.popped <= c.accepted < c.popped + n
  }

  function Held(c: Counts): int {
    c.accepted - c.popped
  }

  /** What a query has seen so far; the producer's own count, and the consumer's own,
      cannot have moved meanwhile. */
  ghost predicate QueryOk<T>(s: State<T>, who: Asker, n: nat)
    requires n > 0
  {
    match Asked(s, who)
    case Idle => true
    case SeenHead(h, atHead) =>
      && Possible(atHead, n) && h == Slot(atHead.accepted, n)
      && atHead.accepted <= |s.accepted| && atHead.popped <= |s.popped|
      && Stayed(who, atHead, Current(s)) && MayAsk(s, who)
    case SeenTail(t, atTail) =>
      && Possible(atTail, n) && t == Slot(atTail.popped, n)
      && atTail.accepted <= |s.accepted| && atTail.popped <= |s.popped|
      && Stayed(who, atTail, Current(s)) && MayAsk(s, who)
    case Answered(d, atHead, atTail) =>
      && Possible(atHead, n) && Possible(atTail, n)
      && d == (atHead.accepted - atTail.popped) % n
      && Stayed(who, atHead, atTail)
  }

  predicate Stayed(who: Asker, a: Counts, b: Counts) {
    (who == TheProducer ==> a.accepted == b.accepted) && (who == TheConsumer ==> a.popped == b.popped)
  }

  /** A step that is not a load of this query: the counts only grow, and while the
      query lasts, the asking thread's own call and count stand still. */
  lemma OtherStep<T>(s: State<T>, step: Step<T>, t: State<T>, n: nat, w: nat, who: Asker)
    requires n >= 2 && Take(s, step, n, w) == Some(t) && step != LoadDepthHead(who) && step != LoadDepthTail(who)
    ensures Asked(t, who) == Asked(s, who)
    ensures |s.accepted| <= |t.accepted| && |s.popped| <= |t.popped|
    ensures Asking(Asked(s, who)) && MayAsk(s, who) ==> MayAsk(t, who) && Stayed(who, Current(s), Current(t))
  {
  }

  /** What the indices say, given the invariant of the ring. */
  lemma IndicesTell<T>(s: State<T>, n: nat, w: nat)
    requires n >= 2 && Consistent(s, n, w)
    ensures s.head == Slot(|s.accepted|, n) && s.tail == Slot(|s.popped|, n) && Possible(Current(s), n)
  {
  }

  lemma OwnLoad<T>(s: State<T>, t: State<T>, n: nat, who: Asker, head: bool)
    requires n >= 2 && s.head == Slot(|s.accepted|, n) && s.tail == Slot(|s.popped|, n) && Possible(Current(s), n)
    requires LoadForDepth(s, who, head, n) == Some(t) && QueryOk(s, who, n)
    ensures QueryOk(t, who, n)
  {
    match Asked(s, who)
    case SeenTail(_, atTail) => DifferenceOfRemainders(|s.accepted|, atTail.popped, n);
    case SeenHead(_, atHead) => DifferenceOfRemainders(atHead.accepted, |s.popped|, n);
    case _ =>
  }

  lemma QueryStepKeeps<T>(s: State<T>, step: Step<T>, t: State<T>, n: nat, w: nat, who: Asker)
    requires n >= 2 && Consistent(s, n, w) && Take(s, step, n, w) == Some(t) && QueryOk(s, who, n)
    ensures QueryOk(t, who, n)
  {
    IndicesTell(s, n, w);
    hide Consistent, LoadForDepth, Slot;
    if step == LoadDepthHead(who) {
      OwnLoad(s, t, n, who, true);
    } else if step == LoadDepthTail(who) {
      OwnLoad(s, t, n, who, false);
    } else {
      OtherStep(s, step, t, n, w, who);
      hide Take, MayAsk;
    }
  }

  lemma {:induction false} QueryRunKeeps<T>(slots: seq<seq<T>>, steps: seq<Step<T>>, n: nat, w: nat, who: Asker)
    requires n >= 2 && |slots| == n && forall i :: 0 <= i < n ==> |slots[i]| == w
    ensures QueryOk(Run(Start(slots), steps, n, w), who, n)
    decreases |steps|
  {
    if steps != [] {
      var front, last := steps[..|steps| - 1], steps[|steps| - 1];
      QueryRunKeeps(slots, front, n, w, who);
      RunKeeps(slots, front, n, w);
      var before := Run(Start(slots), front, n, w);
      match Take(before, last, n, w)
      case None =>
      case Some(after) => QueryStepKeeps(before, last, after, n, w, who);
    }
  }

  /** Under every interleaving an answered depth is the number held at one of the two
      loads: at the load of the tail exactly if the producer published a multiple of n
      events between the loads, at the load of the head exactly if the consumer
      released a multiple of n. So the producer is always told what is held at its load
      of the tail, and the consumer what is held at its load of the head. */
  lemma DepthIsExactForItsThreads<T>(slots: seq<seq<T>>, steps: seq<Step<T>>, n: nat, w: nat, who: Asker)
    requires n >= 2 && |slots| == n && forall i :: 0 <= i < n ==> |slots[i]| == w
    ensures var q := Asked(Run(Start(slots), steps, n, w), who);
            q.Answered? ==>
              && (q.depth == Held(q.atTail) <==> (q.atHead.accepted - q.atTail.accepted) % n == 0)
              && (q.depth == Held(q.atHead) <==> (q.atHead.popped - q.atTail.popped) % n == 0)
              && (who == TheProducer ==> q.depth == Held(q.atTail))
              && (who == TheConsumer ==> q.depth == Held(q.atHead))
  {
    QueryRunKeeps(slots, steps, n, w, who);
    hide Run, Start, MayAsk, Asked;
    var q := Asked(Run(Start(slots), steps, n, w), who);
    if q.Answered? { AnswerMeans(q.depth, q.atHead, q.atTail, n); }
  }

  lemma AnswerMeans(depth: nat, atHead: Counts, atTail: Counts, n: nat)
    requires n > 0 && Possible(atHead, n) && Possible(atTail, n) && depth == (atHead.accepted - atTail.popped) % n
    ensures depth == Held(atTail) <==> (atHead.accepted - atTail.accepted) % n == 0
    ensures depth == Held(atHead) <==> (atHead.popped - atTail.popped) % n == 0
    ensures atHead.accepted == atTail.accepted ==> depth == Held(atTail)
    ensures atHead.popped == atTail.popped ==> depth == Held(atHead)
  {
    var x := atHead.accepted - atTail.popped;
    assert x - Held(atTail) == atHead.accepted - atTail.accepted;
    assert x - Held(atHead) == atHead.popped - atTail.popped;
    SameRemainder(x, Held(atTail), n);
    SameRemainder(x, Held(atHead), n);
    RemainderOf(0, n, 0, 0);
  }

  /** d is the remainder of x exactly if they differ by a multiple of n. */
  lemma SameRemainder(x: int, d: int, n: nat)
    requires 0 <= d < n
    ensures x % n == d <==> (x - d) % n == 0
  {
    assert x == x / n * n + x % n;
    if x % n == d {
      DropMultiple(0, x / n, n);
    }
    if (x - d) % n == 0 {
      assert x - d == (x - d) / n * n;
      DropMultiple(d, (x - d) / n, n);
      RemainderOf(d, n, 0, d);
    }
  }

  /** One event on its way through an empty ring of one-word slots, after an observer
      has loaded the head: the state before each step. */
  function Passing<T>(slots: seq<seq<T>>, x: T, k: nat): State<T>
    requires slots != [] && k <= 9
  {
    var asked := Start(slots).(queries := map[Observer := SeenHead(0, Counts(0, 0))]);
    var pushed := asked.(slots := slots[0 := [x]], head := 1, accepted := [[x]]);
    match k
    case 0 => Start(slots)
    case 1 => asked
    case 2 => asked.(prod := LoadedHead([x], 0))
    case 3 => asked.(prod := CopyingIn([x], 0, 0))
    case 4 => asked.(prod := CopyingIn([x], 0, 1), slots := slots[0 := [x]])
    case 5 => pushed
    case 6 => pushed.(cons := LoadedTail(0))
    case 7 => pushed.(cons := CopyingOut(0, []))
    case 8 => pushed.(cons := CopyingOut(0, [x]))
    case _ => pushed.(tail := 1, popped := [[x]])
  }

  function Passage<T>(x: T): seq<Step<T>> {
    [LoadDepthHead(Observer), CallPush([x]), TestFull, StoreWord, PublishHead,
     CallPop, TestEmpty, LoadWord, PublishTail]
  }

  lemma PassingSteps<T>(slots: seq<seq<T>>, x: T, n: nat, k: nat)
    requires n >= 2 && |slots| == n && |slots[0]| == 1 && k < 9
    ensures Take(Passing(slots, x, k), Passage(x)[k], n, 1) == Some(Passing(slots, x, k + 1))
  {
    SmallRemainders(n);
    assert slots[0][0 := x] == [x];
    var none: seq<seq<T>> := [];
    assert none + [[x]] == [[x]] && [] + [[x][0]] == [x];
    if k == 3 || k == 7 {
      assert [x][0] == x;
    } else if k < 5 {
      assert k == 0 || k == 1 || k == 2 || k == 4;
    } else {
      assert k == 5 || k == 6 || k == 8;
    }
  }

  lemma {:induction false} PassingRun<T>(slots: seq<seq<T>>, x: T, n: nat, k: nat)
    requires n >= 2 && |slots| == n && |slots[0]| == 1 && k <= 9
    ensures Run(Start(slots), Passage(x)[..k], n, 1) == Passing(slots, x, k)
    decreases k
  {
    if k > 0 {
      PassingRun(slots, x, n, k - 1);
      PassingSteps(slots, x, n, k - 1);
      assert Passage(x)[..k][..k - 1] == Passage(x)[..k - 1];
      hide Passing, Take;
    }
  }

  /** A third thread can be told n - 1 although nothing is held at either of its loads:
      one event passes through the ring between them. */
  lemma ObserverCanMiscount<T>(slots: seq<seq<T>>, x: T, n: nat)
    requires n >= 2 && |slots| == n && forall i :: 0 <= i < n ==> |slots[i]| == 1
    ensures Asked(Run(Start(slots), Passage(x) + [LoadDepthTail(Observer)], n, 1), Observer)
         == Answered(n - 1, Counts(0, 0), Counts(1, 1))
  {
    PassingRun(slots, x, n, 9);
    SmallRemainders(n);
    assert Passage(x)[..9] == Passage(x);
    assert (Passage(x) + [LoadDepthTail(Observer)])[..9] == Passage(x);
    hide Passage;
  }

  lemma SmallRemainders(n: nat)
    requires n >= 2
    ensures (0 + 1) % n == 1 && (0 - 1) % n == n - 1
  {
    RemainderOf(1, n, 0, 1);
    PlusLap(-1, n);
  }
}
