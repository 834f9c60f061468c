/** breUtils/BlockQueue.hpp as a monitor: what a thread does between taking the mutex and releasing it, be it by
    returning or by waiting on a condition variable, is one atomic step. */
module BlockQueueSteps {
  import opened Wrappers

  type Thread = nat

  /** A thread that waits on a condition variable sleeps until it is notified; a notified one has yet to take the
      mutex again. `pushed` and `popped` record all items that went in and came out. `Close` notifies after it has
      released the mutex: `closers` counts the calls that have yet to notify the producers, and `lateClosers` those
      that have yet to notify the consumers. */
  datatype State<T> = State(
    capacity: nat,
    closed: bool,
    queue: seq<T>,
    sleepingConsumers: set<Thread>,
    notifiedConsumers: set<Thread>,
    sleepingProducers: set<Thread>,
    notifiedProducers: set<Thread>,
    items: map<Thread, T>,
    pushed: seq<T>,
    popped: seq<T>,
    closers: nat,
    lateClosers: nat)

  /** `woken` is the sleeper that `notify_one` picks, if there is any. */
  datatype Step<T> =
    | Push(t: Thread, item: T, woken: Option<Thread>)
    | ResumePush(t: Thread, woken: Option<Thread>)
    | Pop(t: Thread, woken: Option<Thread>)
    | ResumePop(t: Thread, woken: Option<Thread>)
    | Timeout(t: Thread)
    | Flush(woken: Option<Thread>)
    | Close
    | WakeProducers
    | WakeConsumers

  function Initial<T>(capacity: nat): State<T> {
    State(capacity, false, [], {}, {}, {}, {}, map[], [], [], 0, 0)
  }

  predicate Waits<T>(s: State<T>, t: Thread) {
    t in s.sleepingConsumers || t in s.notifiedConsumers || t in s.sleepingProducers || t in s.notifiedProducers
  }

  predicate Picks(sleeping: set<Thread>, woken: Option<Thread>) {
    match woken
    case None => sleeping == {}
    case Some(w) => w in sleeping
  }

  function NotifyConsumer<T>(s: State<T>, woken: Option<Thread>): State<T> {
    match woken
    case None => s
    case Some(w) =>
      s.(sleepingConsumers := s.sleepingConsumers - {w}, notifiedConsumers := s.notifiedConsumers + {w})
  }

  function NotifyProducer<T>(s: State<T>, woken: Option<Thread>): State<T> {
    match woken
    case None => s
    case Some(w) =>
      s.(sleepingProducers := s.sleepingProducers - {w}, notifiedProducers := s.notifiedProducers + {w})
  }

  /** A thread that runs again is no longer waiting, whether it was notified or woke spuriously. */
  function Awake<T>(s: State<T>, t: Thread): State<T> {
    s.(sleepingConsumers := s.sleepingConsumers - {t}, notifiedConsumers := s.notifiedConsumers - {t},
       sleepingProducers := s.sleepingProducers - {t}, notifiedProducers := s.notifiedProducers - {t})
  }

  predicate Full<T>(s: State<T>) {
    |s.queue| >= s.capacity
  }

  /** The loop of `Push`, from the test of its condition on. */
  function TryPush<T>(s: State<T>, t: Thread, item: T, woken: Option<Thread>): State<T> {
    if Full(s) then s.(sleepingProducers := s.sleepingProducers + {t}, items := s.items[t := item])
    else NotifyConsumer(s.(queue := s.queue + [item], pushed := s.pushed + [item]), woken)
  }

  /** The loop of `Pop`, from the test of its condition on. */
  function TryPop<T>(s: State<T>, t: Thread, woken: Option<Thread>): State<T> {
    if s.queue == [] then s.(sleepingConsumers := s.sleepingConsumers + {t})
    else NotifyProducer(s.(queue := s.queue[1..], popped := s.popped + [s.queue[0]]), woken)
  }

  predicate Enabled<T>(s: State<T>, step: Step<T>) {
    match step
    case Push(t, _, woken) => !Waits(s, t) && (!Full(s) ==> Picks(s.sleepingConsumers, woken))
    case ResumePush(t, woken) =>
      && (t in s.sleepingProducers || t in s.notifiedProducers) && t in s.items
      && (!Full(s) ==> Picks(s.sleepingConsumers, woken))
    case Pop(t, woken) => !Waits(s, t) && (s.queue != [] ==> Picks(s.sleepingProducers, woken))
    case ResumePop(t, woken) =>
      && (t in s.sleepingConsumers || t in s.notifiedConsumers)
      && (s.queue != [] && !s.closed ==> Picks(s.sleepingProducers, woken))
    case Timeout(t) => t in s.sleepingConsumers
    case Flush(woken) => Picks(s.sleepingConsumers, woken)
    case Close => true
    case WakeProducers => s.closers > 0
    case WakeConsumers => s.lateClosers > 0
  }

  function Next<T>(s: State<T>, step: Step<T>): State<T>
    requires Enabled(s, step)
  {
    match step
    case Push(t, item, woken) => TryPush(s, t, item, woken)
    case ResumePush(t, woken) => TryPush(Awake(s, t), t, s.items[t], woken)
    case Pop(t, woken) => TryPop(s, t, woken)
    case ResumePop(t, woken) => if s.closed then Awake(s, t) else TryPop(Awake(s, t), t, woken)
    case Timeout(t) => Awake(s, t)
    case Flush(woken) => NotifyConsumer(s, woken)
    case Close => s.(closed := true, queue := [], closers := s.closers + 1)
    case WakeProducers =>
      s.(closers := s.closers - 1, lateClosers := s.lateClosers + 1,
         sleepingProducers := {}, notifiedProducers := s.notifiedProducers + s.sleepingProducers)
    case WakeConsumers =>
      s.(lateClosers := s.lateClosers - 1,
         sleepingConsumers := {}, notifiedConsumers := s.notifiedConsumers + s.sleepingConsumers)
  }

  /** `last` is the state after `steps`, each of them possible when its turn comes. */
  ghost predicate Reaches<T>(first: State<T>, steps: seq<Step<T>>, last: State<T>)
    decreases |steps|
  {
    if steps == [] then first == last
    else Enabled(first, steps[0]) && Reaches(Next(first, steps[0]), steps[1..], last)
  }
}

/** A queue object, whose methods are the steps. */
module BlockQueue {
  import opened Wrappers
  import opened BlockQueueSteps

  class BlockQueue<T(==)> {
    const capacity: nat
    var isClose: bool
    var queue: seq<T>
    var sleepingConsumers: set<Thread>
    var notifiedConsumers: set<Thread>
    var sleepingProducers: set<Thread>
    var notifiedProducers: set<Thread>
    var items: map<Thread, T>
    ghost var pushed: seq<T>
    ghost var popped: seq<T>
    var closers: nat
    var lateClosers: nat

    ghost function View(): State<T>
      reads this
    {
      State(capacity, isClose, queue, sleepingConsumers, notifiedConsumers, sleepingProducers, notifiedProducers,
            items, pushed, popped, closers, lateClosers)
    }

    constructor (maxCapacity: nat)
      ensures View() == Initial(maxCapacity)
    {
      capacity := maxCapacity;
      isClose := false;
      queue := [];
      sleepingConsumers, notifiedConsumers, sleepingProducers, notifiedProducers := {}, {}, {}, {};
      items := map[];
      pushed, popped := [], [];
      closers, lateClosers := 0, 0;
    }

    /** `condConsumer.notify_one()` */
    method NotifyConsumer() returns (woken: Option<Thread>)
      modifies this
      ensures Picks(old(sleepingConsumers), woken)
      ensures View() == BlockQueueSteps.NotifyConsumer(old(View()), woken)
    {
      woken := None;
      if sleepingConsumers != {} {
        var w :| w in sleepingConsumers;
        sleepingConsumers, notifiedConsumers := sleepingConsumers - {w}, notifiedConsumers + {w};
        woken := Some(w);
      }
    }

    /** `condProducer.notify_one()` */
    method NotifyProducer() returns (woken: Option<Thread>)
      modifies this
      ensures Picks(old(sleepingProducers), woken)
      ensures View() == BlockQueueSteps.NotifyProducer(old(View()), woken)
    {
      woken := None;
      if sleepingProducers != {} {
        var w :| w in sleepingProducers;
        sleepingProducers, notifiedProducers := sleepingProducers - {w}, notifiedProducers + {w};
        woken := Some(w);
      }
    }

    method Wake(t: Thread)
      modifies this
      ensures View() == Awake(old(View()), t)
    {
      sleepingConsumers, notifiedConsumers := sleepingConsumers - {t}, notifiedConsumers - {t};
      sleepingProducers, notifiedProducers := sleepingProducers - {t}, notifiedProducers - {t};
    }

    /** The test of the loop in `Push` and what follows it; false when the thread has to wait. */
    method PushOrWait(t: Thread, item: T) returns (done: bool, woken: Option<Thread>)
      modifies this
      ensures done == !Full(old(View()))
      ensures done ==> Picks(old(sleepingConsumers), woken)
      ensures View() == TryPush(old(View()), t, item, woken)
    {
      woken := None;
      done := |queue| < capacity;
      if done {
        queue, pushed := queue + [item], pushed + [item];
        woken := NotifyConsumer();
      } else {
        sleepingProducers, items := sleepingProducers + {t}, items[t := item];
      }
    }

    /** The test of the loop in `Pop` and what follows it; nothing when the thread has to wait. */
    method PopOrWait(t: Thread) returns (item: Option<T>, woken: Option<Thread>)
      modifies this
      ensures item == if old(queue) == [] then None else Some(old(queue)[0])
      ensures old(queue) != [] ==> Picks(old(sleepingProducers), woken)
      ensures View() == TryPop(old(View()), t, woken)
    {
      woken, item := None, None;
      if queue != [] {
        item := Some(queue[0]);
        popped := popped + [queue[0]];
        queue := queue[1..];
        woken := NotifyProducer();
      } else {
        sleepingConsumers := sleepingConsumers + {t};
      }
    }

    method Push(t: Thread, item: T) returns (done: bool, ghost step: Step<T>)
      requires !Waits(View(), t)
      modifies this
      ensures step.Push? && step.t == t && step.item == item && done == !Full(old(View()))
      ensures Enabled(old(View()), step) && View() == Next(old(View()), step)
    {
      var woken;
      done, woken := PushOrWait(t, item);
      step := BlockQueueSteps.Push(t, item, woken);
    }

    method ResumePush(t: Thread) returns (done: bool, ghost step: Step<T>)
      requires (t in sleepingProducers || t in notifiedProducers) && t in items
      requires t !in sleepingConsumers
      modifies this
      ensures step.ResumePush? && step.t == t && done == !Full(old(View()))
      ensures Enabled(old(View()), step) && View() == Next(old(View()), step)
    {
      var woken;
      Wake(t);
      done, woken := PushOrWait(t, items[t]);
      step := BlockQueueSteps.ResumePush(t, woken);
    }

    method Pop(t: Thread) returns (item: Option<T>, ghost step: Step<T>)
      requires !Waits(View(), t)
      modifies this
      ensures step.Pop? && step.t == t
      ensures item == if old(queue) == [] then None else Some(old(queue)[0])
      ensures Enabled(old(View()), step) && View() == Next(old(View()), step)
    {
      var woken;
      item, woken := PopOrWait(t);
      step := BlockQueueSteps.Pop(t, woken);
    }

    /** A consumer that runs again looks at `isClose` before it looks at the queue. */
    method ResumePop(t: Thread) returns (item: Option<T>, gaveUp: bool, ghost step: Step<T>)
      requires t in sleepingConsumers || t in notifiedConsumers
      requires t !in sleepingProducers
      modifies this
      ensures step.ResumePop? && step.t == t && gaveUp == old(isClose)
      ensures item == if old(isClose) || old(queue) == [] then None else Some(old(queue)[0])
      ensures Enabled(old(View()), step) && View() == Next(old(View()), step)
    {
      var woken := None;
      item := None;
      Wake(t);
      gaveUp := isClose;
      if !isClose {
        item, woken := PopOrWait(t);
      }
      step := BlockQueueSteps.ResumePop(t, woken);
    }

    /** The wait of the second `Pop` runs out of time. */
    method Timeout(t: Thread)
      requires t in sleepingConsumers
      modifies this
      ensures View() == Next(old(View()), BlockQueueSteps.Timeout(t))
    {
      Wake(t);
    }

    method Flush() returns (ghost step: Step<T>)
      modifies this
      ensures step.Flush? && Enabled(old(View()), step) && View() == Next(old(View()), step)
    {
      var woken := NotifyConsumer();
      step := BlockQueueSteps.Flush(woken);
    }

    /** The critical section of `Close`, and its two notifications, each by itself. */
    method Close()
      modifies this
      ensures View() == Next(old(View()), BlockQueueSteps.Close)
    {
      while queue != []
        invariant View() == old(View()).(queue := queue)
        decreases |queue|
      {
        queue := queue[1..];
      }
      isClose := true;
      closers := closers + 1;
    }

    /** `condProducer.notify_all()` */
    method WakeProducers()
      requires closers > 0
      modifies this
      ensures View() == Next(old(View()), BlockQueueSteps.WakeProducers)
    {
      notifiedProducers, sleepingProducers := notifiedProducers + sleepingProducers, {};
      closers, lateClosers := closers - 1, lateClosers + 1;
    }

    /** `condConsumer.notify_all()` */
    method WakeConsumers()
      requires lateClosers > 0
      modifies this
      ensures View() == Next(old(View()), BlockQueueSteps.WakeConsumers)
    {
      notifiedConsumers, sleepingConsumers := notifiedConsumers + sleepingConsumers, {};
      lateClosers := lateClosers - 1;
    }
  }
}

module BlockQueueSafety {
  import opened Wrappers
  import opened BlockQueueSteps

  /** Nobody waits in two places, and a waiting producer holds an item. */
  predicate Orderly<T>(s: State<T>) {
    && s.sleepingConsumers !! s.notifiedConsumers
    && s.sleepingProducers !! s.notifiedProducers
    && (s.sleepingConsumers + s.notifiedConsumers) !! (s.sleepingProducers + s.notifiedProducers)
    && forall t :: t in s.sleepingProducers + s.notifiedProducers ==> t in s.items
  }

  predicate Bounded<T>(s: State<T>) {
    |s.queue| <= s.capacity
  }

  /** First in, first out: nothing is lost, repeated or reordered. */
  ghost predicate Fifo<T>(s: State<T>) {
    s.pushed == s.popped + s.queue
  }

  /** While a consumer sleeps, every item in the queue has a notified consumer on its way to it. */
  predicate NoItemForgotten<T>(s: State<T>) {
    s.sleepingConsumers != {} ==> |s.queue| <= |s.notifiedConsumers|
  }

  /** While a producer sleeps and no `Close` is about to notify it, every free place has a notified producer on its
      way to it. */
  predicate NoPlaceForgotten<T>(s: State<T>) {
    s.closers == 0 && s.sleepingProducers != {} ==> s.capacity - |s.queue| <= |s.notifiedProducers|
  }

  ghost predicate Safe<T>(s: State<T>) {
    && Orderly(s) && Bounded(s) && NoPlaceForgotten(s)
    && (!s.closed ==> Fifo(s) && NoItemForgotten(s))
  }

  lemma Shrinks(a: set<Thread>, t: Thread)
    ensures |a - {t}| >= |a| - 1
    ensures t in a ==> |a - {t}| == |a| - 1
    ensures t !in a ==> a - {t} == a
    ensures t !in a ==> |a + {t}| == |a| + 1
  {
    if t in a {
      assert a == (a - {t}) + {t};
    }
  }

  lemma PickShrinks(a: set<Thread>, b: set<Thread>, woken: Option<Thread>)
    requires a !! b && Picks(a, woken)
    ensures woken.Some? ==> |b + {woken.value}| == |b| + 1
  {
    if woken.Some? {
      Shrinks(b, woken.value);
    }
  }

  /** A thread that has just started or resumed tries to push. Those who wait are in order, and the promise to the
      sleepers holds as if it were still among the notified producers. */
  lemma TryPushIsSafe<T>(s: State<T>, t: Thread, item: T, woken: Option<Thread>)
    requires Orderly(s) && !Waits(s, t) && Bounded(s)
    requires s.closers == 0 && s.sleepingProducers != {} ==> s.capacity - |s.queue| <= |s.notifiedProducers| + 1
    requires !s.closed ==> Fifo(s) && NoItemForgotten(s)
    requires !Full(s) ==> Picks(s.sleepingConsumers, woken)
    ensures Safe(TryPush(s, t, item, woken))
  {
    if Full(s) {
      ProducerSleeps(s, t, item);
    } else {
      hide Orderly, Fifo;
      ItemEnters(s, item);
      NotifyIsSafe(s.(queue := s.queue + [item], pushed := s.pushed + [item]), woken);
    }
  }

  lemma ProducerSleeps<T>(s: State<T>, t: Thread, item: T)
    requires Orderly(s) && !Waits(s, t) && |s.queue| == s.capacity
    requires !s.closed ==> Fifo(s) && NoItemForgotten(s)
    ensures Safe(s.(sleepingProducers := s.sleepingProducers + {t}, items := s.items[t := item]))
  {
    SleeperIsOrderly(s, t, item);
    hide Orderly;
  }

  lemma SleeperIsOrderly<T>(s: State<T>, t: Thread, item: T)
    requires Orderly(s) && !Waits(s, t)
    ensures Orderly(s.(sleepingProducers := s.sleepingProducers + {t}, items := s.items[t := item]))
  {
  }

  lemma ItemEnters<T>(s: State<T>, item: T)
    requires Orderly(s) && (!s.closed ==> Fifo(s))
    ensures
      var after := s.(queue := s.queue + [item], pushed := s.pushed + [item]);
      Orderly(after) && (!s.closed ==> Fifo(after))
  {
    assert s.popped + s.queue + [item] == s.popped + (s.queue + [item]);
  }

  /** Notifying a consumer makes up for one item too many. */
  lemma NotifyIsSafe<T>(s: State<T>, woken: Option<Thread>)
    requires Orderly(s) && Bounded(s) && NoPlaceForgotten(s)
    requires !s.closed ==> Fifo(s) && (s.sleepingConsumers != {} ==> |s.queue| <= |s.notifiedConsumers| + 1)
    requires Picks(s.sleepingConsumers, woken)
    ensures Safe(NotifyConsumer(s, woken))
  {
    PickShrinks(s.sleepingConsumers, s.notifiedConsumers, woken);
  }

  lemma TryPopIsSafe<T>(s: State<T>, t: Thread, woken: Option<Thread>)
    requires Orderly(s) && !Waits(s, t) && Bounded(s) && NoPlaceForgotten(s)
    requires !s.closed ==> Fifo(s)
    requires !s.closed && s.sleepingConsumers != {} ==> |s.queue| <= |s.notifiedConsumers| + 1
    requires s.queue != [] ==> Picks(s.sleepingProducers, woken)
    ensures Safe(TryPop(s, t, woken))
  {
    if s.queue == [] {
      ConsumerSleeps(s, t);
    } else {
      hide Orderly, Fifo, Safe;
      ItemLeaves(s);
      NotifyProducerIsSafe(s.(queue := s.queue[1..], popped := s.popped + [s.queue[0]]), woken);
    }
  }

  lemma ConsumerSleeps<T>(s: State<T>, t: Thread)
    requires Orderly(s) && !Waits(s, t) && Bounded(s) && NoPlaceForgotten(s) && s.queue == []
    requires !s.closed ==> Fifo(s)
    ensures Safe(s.(sleepingConsumers := s.sleepingConsumers + {t}))
  {
  }

  lemma ItemLeaves<T>(s: State<T>)
    requires s.queue != [] && Orderly(s) && (!s.closed ==> Fifo(s))
    ensures
      var after := s.(queue := s.queue[1..], popped := s.popped + [s.queue[0]]);
      Orderly(after) && (!s.closed ==> Fifo(after))
  {
    assert s.popped + s.queue == s.popped + [s.queue[0]] + s.queue[1..];
  }

  /** Notifying a producer makes up for one free place too many. */
  lemma NotifyProducerIsSafe<T>(s: State<T>, woken: Option<Thread>)
    requires Orderly(s) && Bounded(s) && (!s.closed ==> Fifo(s) && NoItemForgotten(s))
    requires s.closers == 0 && s.sleepingProducers != {} ==> s.capacity - |s.queue| <= |s.notifiedProducers| + 1
    requires Picks(s.sleepingProducers, woken)
    ensures Safe(NotifyProducer(s, woken))
  {
    PickShrinks(s.sleepingProducers, s.notifiedProducers, woken);
  }

  /** Waking up takes at most one away from the notified threads. */
  lemma AwakeIsOrderly<T>(s: State<T>, t: Thread)
    requires Orderly(s)
    ensures Orderly(Awake(s, t)) && !Waits(Awake(s, t), t)
    ensures |Awake(s, t).notifiedConsumers| >= |s.notifiedConsumers| - 1
    ensures |Awake(s, t).notifiedProducers| >= |s.notifiedProducers| - 1
    ensures t !in s.notifiedConsumers ==> Awake(s, t).notifiedConsumers == s.notifiedConsumers
    ensures t !in s.notifiedProducers ==> Awake(s, t).notifiedProducers == s.notifiedProducers
    ensures t !in s.sleepingConsumers ==> Awake(s, t).sleepingConsumers == s.sleepingConsumers
    ensures t !in s.sleepingProducers ==> Awake(s, t).sleepingProducers == s.sleepingProducers
    ensures s.sleepingConsumers == {} ==> Awake(s, t).sleepingConsumers == {}
    ensures s.sleepingProducers == {} ==> Awake(s, t).sleepingProducers == {}
  {
    Shrinks(s.notifiedConsumers, t);
    Shrinks(s.notifiedProducers, t);
    Shrinks(s.sleepingConsumers, t);
    Shrinks(s.sleepingProducers, t);
  }

  lemma ResumePushIsSafe<T>(s: State<T>, t: Thread, woken: Option<Thread>)
    requires Safe(s) && Enabled(s, ResumePush(t, woken))
    ensures Safe(Next(s, ResumePush(t, woken)))
  {
    AwakeIsOrderly(s, t);
    hide Orderly, Waits, TryPush, Fifo;
    TryPushIsSafe(Awake(s, t), t, s.items[t], woken);
  }

  lemma ResumePopIsSafe<T>(s: State<T>, t: Thread, woken: Option<Thread>)
    requires Safe(s) && Enabled(s, ResumePop(t, woken))
    ensures Safe(Next(s, ResumePop(t, woken)))
  {
    AwakeIsOrderly(s, t);
    hide Orderly, Waits, TryPop;
    if !s.closed {
      TryPopIsSafe(Awake(s, t), t, woken);
    }
  }

  lemma TimeoutIsSafe<T>(s: State<T>, t: Thread)
    requires Safe(s) && t in s.sleepingConsumers
    ensures Safe(Awake(s, t))
  {
    AwakeIsOrderly(s, t);
  }

  lemma CloseIsSafe<T>(s: State<T>)
    requires Safe(s)
    ensures Safe(Next(s, Close))
  {
  }

  lemma WakeProducersIsSafe<T>(s: State<T>)
    requires Safe(s) && s.closers > 0
    ensures Safe(Next(s, WakeProducers))
  {
  }

  lemma WakeConsumersIsSafe<T>(s: State<T>)
    requires Safe(s) && s.lateClosers > 0
    ensures Safe(Next(s, WakeConsumers))
  {
  }

  /** Every step keeps the queue safe: new threads may come in between, a notified thread may find its item or its
      place gone, threads may wake up spuriously, and a wait may run out of time before it is notified. */
  lemma StepIsSafe<T>(s: State<T>, step: Step<T>)
    requires Safe(s) && Enabled(s, step)
    ensures Safe(Next(s, step))
    ensures Next(s, step).capacity == s.capacity
    ensures Next(s, step).closed <==> s.closed || step.Close?
    ensures s.closers == 0 && !step.Close? ==> Next(s, step).closers == 0
  {
    hide Orderly, Waits;
    match step {
      case Push(t, item, woken) => TryPushIsSafe(s, t, item, woken);
      case ResumePush(t, woken) => ResumePushIsSafe(s, t, woken);
      case Pop(t, woken) => TryPopIsSafe(s, t, woken);
      case ResumePop(t, woken) => ResumePopIsSafe(s, t, woken);
      case Timeout(t) => TimeoutIsSafe(s, t);
      case Flush(woken) => NotifyIsSafe(s, woken);
      case Close => CloseIsSafe(s);
      case WakeProducers => WakeProducersIsSafe(s);
      case WakeConsumers => WakeConsumersIsSafe(s);
    }
  }

  lemma {:induction false} RunIsSafe<T>(first: State<T>, steps: seq<Step<T>>, last: State<T>)
    requires Safe(first) && Reaches(first, steps, last)
    ensures Safe(last) && last.capacity == first.capacity
    ensures !first.closed && first.closers == 0 && (forall i :: 0 <= i < |steps| ==> !steps[i].Close?) ==>
      !last.closed && last.closers == 0
    decreases |steps|
  {
    if steps != [] {
      StepIsSafe(first, steps[0]);
      RunIsSafe(Next(first, steps[0]), steps[1..], last);
    }
  }

  // ---------- what the callers handed in and were handed ----------

  /** The item of the last push that thread `t` began. */
  function LastPush<T>(past: seq<Step<T>>, t: Thread): Option<T>
    decreases |past|
  {
    if past == [] then None
    else
      var n := |past| - 1;
      match past[n]
      case Push(u, item, _) => if u == t then Some(item) else LastPush(past[..n], t)
      case _ => LastPush(past[..n], t)
  }

  /** What one step brings in, when `past` are the steps before it: a push brings its own item in if it finds room,
      at once or after it has waited. */
  function BroughtIn<T>(s: State<T>, past: seq<Step<T>>, step: Step<T>): seq<T> {
    match step
    case Push(_, item, _) => if |s.queue| < s.capacity then [item] else []
    case ResumePush(t, _) =>
      if |s.queue| < s.capacity && LastPush(past, t).Some? then [LastPush(past, t).value] else []
    case _ => []
  }

  /** What one step hands to its caller: the oldest item, unless there is none or the caller gives up. */
  function HandedOut<T>(s: State<T>, step: Step<T>): seq<T> {
    if (step.Pop? || (step.ResumePop? && !s.closed)) && s.queue != [] then [s.queue[0]] else []
  }

  /** All items that the pushes of a run brought in, in order. */
  function AllBroughtIn<T>(s: State<T>, past: seq<Step<T>>, steps: seq<Step<T>>): seq<T>
    decreases |steps|
  {
    if steps == [] || !Enabled(s, steps[0]) then []
    else BroughtIn(s, past, steps[0]) + AllBroughtIn(Next(s, steps[0]), past + [steps[0]], steps[1..])
  }

  /** All items that the callers of a run were handed, in order. */
  function AllHandedOut<T>(s: State<T>, steps: seq<Step<T>>): seq<T>
    decreases |steps|
  {
    if steps == [] || !Enabled(s, steps[0]) then []
    else HandedOut(s, steps[0]) + AllHandedOut(Next(s, steps[0]), steps[1..])
  }

  /** Every producer that waits holds the item it came with. */
  ghost predicate HoldsOwnItem<T>(s: State<T>, past: seq<Step<T>>) {
    forall t :: t in s.sleepingProducers + s.notifiedProducers ==>
      t in s.items && LastPush(past, t) == Some(s.items[t])
  }

  lemma OneMoreStep<T>(past: seq<Step<T>>, step: Step<T>, t: Thread)
    ensures LastPush(past + [step], t) == if step.Push? && step.t == t then Some(step.item) else LastPush(past, t)
  {
    assert (past + [step])[..|past|] == past;
  }

  lemma StepHoldsOwnItem<T>(s: State<T>, past: seq<Step<T>>, step: Step<T>)
    requires Orderly(s) && HoldsOwnItem(s, past) && Enabled(s, step)
    ensures HoldsOwnItem(Next(s, step), past + [step])
  {
    var after := Next(s, step);
    hide LastPush;
    forall t | t in after.sleepingProducers + after.notifiedProducers
      ensures t in after.items && LastPush(past + [step], t) == Some(after.items[t])
    {
      OneMoreStep(past, step, t);
    }
  }

  /** The records of the model are what the steps brought in and handed out. */
  lemma StepIsRecorded<T>(s: State<T>, past: seq<Step<T>>, step: Step<T>)
    requires HoldsOwnItem(s, past) && Enabled(s, step)
    ensures Next(s, step).pushed == s.pushed + BroughtIn(s, past, step)
    ensures Next(s, step).popped == s.popped + HandedOut(s, step)
  {
    hide LastPush;
  }

  /** The queue after a step: what was handed out is gone from its front, what was brought in is at its end, and
      closing empties it. */
  lemma StepMovesItems<T>(s: State<T>, past: seq<Step<T>>, step: Step<T>)
    requires HoldsOwnItem(s, past) && Enabled(s, step)
    ensures
      var after := Next(s, step);
      && after.queue ==
           (if step.Close? then [] else s.queue[|HandedOut(s, step)|..] + BroughtIn(s, past, step))
      && after.closed == (s.closed || step.Close?)
  {
    hide LastPush;
    assert s.queue + [] == s.queue && s.queue[0..] == s.queue;
  }

  lemma {:induction false} RunIsRecorded<T>(
      first: State<T>, past: seq<Step<T>>, steps: seq<Step<T>>, last: State<T>)
    requires Safe(first) && HoldsOwnItem(first, past) && Reaches(first, steps, last)
    ensures last.pushed == first.pushed + AllBroughtIn(first, past, steps)
    ensures last.popped == first.popped + AllHandedOut(first, steps)
    decreases |steps|
  {
    if steps != [] {
      var step := steps[0];
      var next := Next(first, step);
      StepIsSafe(first, step);
      StepHoldsOwnItem(first, past, step);
      StepIsRecorded(first, past, step);
      hide Safe, HoldsOwnItem, BroughtIn, HandedOut, Next, Enabled;
      RunIsRecorded(next, past + [step], steps[1..], last);
    }
  }

  lemma EveryRunIsRecorded<T>(capacity: nat, steps: seq<Step<T>>, s: State<T>)
    requires Reaches(Initial(capacity), steps, s)
    ensures s.pushed == AllBroughtIn(Initial<T>(capacity), [], steps)
    ensures s.popped == AllHandedOut(Initial<T>(capacity), steps)
  {
    var first := Initial<T>(capacity);
    RunIsRecorded(first, [], steps, s);
    hide Reaches, AllBroughtIn, AllHandedOut;
    assert first.pushed + AllBroughtIn(first, [], steps) == AllBroughtIn(first, [], steps);
    assert first.popped + AllHandedOut(first, steps) == AllHandedOut(first, steps);
  }

  /** In every run of a queue that nobody closes, however the threads interleave: it never holds more than it may, the
      items that callers brought in are, in order, those that callers were handed and then those in the queue, no
      wake-up is lost, and producers and consumers never all sleep. */
  lemma EveryRunIsSafe<T>(capacity: nat, steps: seq<Step<T>>, s: State<T>)
    requires Reaches(Initial(capacity), steps, s)
    requires forall i :: 0 <= i < |steps| ==> !steps[i].Close?
    ensures |s.queue| <= capacity && s.pushed == s.popped + s.queue
    ensures
      var first := Initial<T>(capacity);
      AllBroughtIn(first, [], steps) == AllHandedOut(first, steps) + s.queue
    ensures s.sleepingConsumers != {} ==> |s.queue| <= |s.notifiedConsumers|
    ensures s.sleepingProducers != {} ==> capacity - |s.queue| <= |s.notifiedProducers|
    ensures capacity > 0 && s.sleepingConsumers != {} && s.sleepingProducers != {} ==>
      s.notifiedConsumers != {} || s.notifiedProducers != {}
  {
    RunIsSafe(Initial<T>(capacity), steps, s);
    EveryRunIsRecorded(capacity, steps, s);
    hide AllBroughtIn, AllHandedOut;
  }

  // ---------- what closing leaves true ----------

  /** `part` comes out of `whole` by dropping items. */
  ghost predicate IsSubsequence<T>(part: seq<T>, whole: seq<T>)
    decreases |whole|
  {
    if part == [] then true
    else if whole == [] then false
    else
      var i, n := |part| - 1, |whole| - 1;
      (part[i] == whole[n] && IsSubsequence(part[..i], whole[..n])) || IsSubsequence(part, whole[..n])
  }

  lemma {:induction false} MoreIsDropped<T>(part: seq<T>, whole: seq<T>, more: seq<T>)
    requires IsSubsequence(part, whole)
    ensures IsSubsequence(part, whole + more)
    decreases |more|
  {
    if more == [] {
      assert whole + more == whole;
    } else {
      var n := |more| - 1;
      MoreIsDropped(part, whole, more[..n]);
      assert (whole + more)[..|whole| + n] == whole + more[..n];
    }
  }

  lemma OneIsTaken<T>(part: seq<T>, whole: seq<T>, x: T)
    requires IsSubsequence(part, whole)
    ensures IsSubsequence(part + [x], whole + [x])
  {
    assert (part + [x])[..|part|] == part && (whole + [x])[..|whole|] == whole;
  }

  /** How many of the items pushed have left the queue, by a consumer or by closing. */
  function Gone<T>(s: State<T>): int {
    |s.pushed| - |s.queue|
  }

  /** The queue holds the last items pushed, and the ones taken before come in their order. */
  ghost predicate InOrder<T>(pushed: seq<T>, popped: seq<T>, queue: seq<T>) {
    var gone := |pushed| - |queue|;
    gone >= 0 && pushed[gone..] == queue && IsSubsequence(popped, pushed[..gone])
  }

  lemma PushedInOrder<T>(pushed: seq<T>, popped: seq<T>, queue: seq<T>, item: T)
    requires InOrder(pushed, popped, queue)
    ensures InOrder(pushed + [item], popped, queue + [item])
  {
    var i, more := |pushed| - |queue|, pushed + [item];
    assert more[..i] == pushed[..i] && more[i..] == pushed[i..] + [item];
  }

  lemma PoppedInOrder<T>(pushed: seq<T>, popped: seq<T>, queue: seq<T>)
    requires InOrder(pushed, popped, queue) && queue != []
    ensures InOrder(pushed, popped + [queue[0]], queue[1..])
  {
    var i, x := |pushed| - |queue|, queue[0];
    assert x == pushed[i..][0] == pushed[i];
    assert pushed[..i + 1] == pushed[..i] + [x] && pushed[i + 1..] == queue[1..];
    OneIsTaken(popped, pushed[..i], x);
  }

  lemma ClosedInOrder<T>(pushed: seq<T>, popped: seq<T>, queue: seq<T>)
    requires InOrder(pushed, popped, queue)
    ensures InOrder(pushed, popped, [])
  {
    var i := |pushed| - |queue|;
    assert pushed[..i] + pushed[i..] == pushed == pushed[..|pushed|];
    MoreIsDropped(popped, pushed[..i], pushed[i..]);
  }

  /** Every step, closing included, keeps the order, and what has left the queue never comes back. */
  lemma StepKeepsOrder<T>(s: State<T>, step: Step<T>)
    requires InOrder(s.pushed, s.popped, s.queue) && Enabled(s, step)
    ensures
      var after := Next(s, step);
      InOrder(after.pushed, after.popped, after.queue) && Gone(after) >= Gone(s)
  {
    hide InOrder;
    match step {
      case Push(_, item, _) => PushedInOrder(s.pushed, s.popped, s.queue, item);
      case ResumePush(t, _) => PushedInOrder(s.pushed, s.popped, s.queue, s.items[t]);
      case Close => ClosedInOrder(s.pushed, s.popped, s.queue);
      case _ =>
        if s.queue != [] {
          PoppedInOrder(s.pushed, s.popped, s.queue);
        }
    }
  }

  lemma {:induction false} RunKeepsOrder<T>(first: State<T>, steps: seq<Step<T>>, last: State<T>)
    requires InOrder(first.pushed, first.popped, first.queue) && Reaches(first, steps, last)
    ensures InOrder(last.pushed, last.popped, last.queue) && Gone(last) >= Gone(first)
    decreases |steps|
  {
    if steps != [] {
      StepKeepsOrder(first, steps[0]);
      hide InOrder, Next, Enabled;
      RunKeepsOrder(Next(first, steps[0]), steps[1..], last);
    }
  }

  /** In every run, closed or not: the bound, the wake-ups of producers and the order of items. Closing drops items,
      but those that come out do so in the order they went in, and the queue holds the latest. */
  lemma EveryRunIsBounded<T>(capacity: nat, steps: seq<Step<T>>, s: State<T>)
    requires Reaches(Initial(capacity), steps, s)
    ensures |s.queue| <= capacity
    ensures s.closers == 0 && s.sleepingProducers != {} ==> capacity - |s.queue| <= |s.notifiedProducers|
    ensures Gone(s) >= 0 && s.pushed[Gone(s)..] == s.queue && IsSubsequence(s.popped, s.pushed[..Gone(s)])
    ensures s.pushed == AllBroughtIn(Initial<T>(capacity), [], steps)
    ensures s.popped == AllHandedOut(Initial<T>(capacity), steps)
  {
    RunIsSafe(Initial<T>(capacity), steps, s);
    EveryRunIsRecorded(capacity, steps, s);
    hide AllBroughtIn, AllHandedOut;
    RunKeepsOrder(Initial<T>(capacity), steps, s);
  }

  // ---------- who waits ----------

  function Consumers<T>(s: State<T>): set<Thread> {
    s.sleepingConsumers + s.notifiedConsumers
  }

  function Producers<T>(s: State<T>): set<Thread> {
    s.sleepingProducers + s.notifiedProducers
  }

  /** Only the thread of a step starts or ends to wait, and closing leaves nobody asleep. */
  lemma StepMovesOneThread<T>(s: State<T>, step: Step<T>)
    requires Orderly(s) && Enabled(s, step)
    ensures
      var after, full, empty := Next(s, step), |s.queue| >= s.capacity, s.queue == [];
      match step
      case Push(t, _, _) =>
        Consumers(after) == Consumers(s) && Producers(after) == Producers(s) + (if full then {t} else {})
      case ResumePush(t, _) =>
        Consumers(after) == Consumers(s) && Producers(after) == Producers(s) - (if full then {} else {t})
      case Pop(t, _) =>
        Consumers(after) == Consumers(s) + (if empty then {t} else {}) && Producers(after) == Producers(s)
      case ResumePop(t, _) =>
        && Consumers(after) == Consumers(s) - (if empty && !s.closed then {} else {t})
        && Producers(after) == Producers(s)
      case Timeout(t) => Consumers(after) == Consumers(s) - {t} && Producers(after) == Producers(s)
      case WakeProducers =>
        Consumers(after) == Consumers(s) && Producers(after) == after.notifiedProducers == Producers(s)
      case WakeConsumers =>
        Consumers(after) == after.notifiedConsumers == Consumers(s) && Producers(after) == Producers(s)
      case _ => Consumers(after) == Consumers(s) && Producers(after) == Producers(s)
  {
  }

  /** Whoever brings an item in, takes one, or calls `Flush`, notifies one sleeper of the other side, if there is
      one. */
  lemma StepNotifiesOne<T>(s: State<T>, step: Step<T>)
    requires Orderly(s) && Enabled(s, step)
    ensures
      var after := Next(s, step);
      && (step.Flush? || (step.Push? && |s.queue| < s.capacity) ==>
            s.sleepingConsumers == {} || |after.sleepingConsumers| == |s.sleepingConsumers| - 1)
      && (step.Pop? && s.queue != [] ==>
            s.sleepingProducers == {} || |after.sleepingProducers| == |s.sleepingProducers| - 1)
  {
    if step.Push? || step.Pop? || step.Flush? {
      if step.woken.Some? {
        Shrinks(if step.Pop? then s.sleepingProducers else s.sleepingConsumers, step.woken.value);
      }
    }
  }

  // ---------- when a wake-up of a consumer is lost ----------

  /** A notified consumer gives up on a closed queue, and the other notified ones no longer suffice for the items. */
  predicate LosesWakeUp<T>(s: State<T>, step: Step<T>) {
    && step.ResumePop? && s.closed && step.t in s.notifiedConsumers
    && s.sleepingConsumers != {} && |s.queue| >= |s.notifiedConsumers|
  }

  /** What keeps the wake-ups of consumers, closed or not. */
  ghost predicate Attentive<T>(s: State<T>) {
    Orderly(s) && Bounded(s) && NoPlaceForgotten(s) && NoItemForgotten(s)
  }

  lemma NotifiedForItem<T>(s: State<T>, woken: Option<Thread>)
    requires Orderly(s) && Picks(s.sleepingConsumers, woken)
    requires s.sleepingConsumers != {} ==> |s.queue| <= |s.notifiedConsumers| + 1
    ensures NoItemForgotten(NotifyConsumer(s, woken))
  {
    PickShrinks(s.sleepingConsumers, s.notifiedConsumers, woken);
  }

  lemma PushRemembersItem<T>(s: State<T>, t: Thread, item: T, woken: Option<Thread>)
    requires Orderly(s) && NoItemForgotten(s) && (!Full(s) ==> Picks(s.sleepingConsumers, woken))
    ensures NoItemForgotten(TryPush(s, t, item, woken))
  {
    if !Full(s) {
      NotifiedForItem(s.(queue := s.queue + [item], pushed := s.pushed + [item]), woken);
    }
  }

  lemma PopRemembersItem<T>(s: State<T>, t: Thread, woken: Option<Thread>)
    requires s.sleepingConsumers != {} ==> |s.queue| <= |s.notifiedConsumers| + 1
    ensures NoItemForgotten(TryPop(s, t, woken))
  {
  }

  lemma ResumePushRemembersItem<T>(s: State<T>, t: Thread, woken: Option<Thread>)
    requires Orderly(s) && NoItemForgotten(s) && Enabled(s, ResumePush(t, woken))
    ensures NoItemForgotten(Next(s, ResumePush(t, woken)))
  {
    AwakeIsOrderly(s, t);
    hide Orderly, TryPush;
    PushRemembersItem(Awake(s, t), t, s.items[t], woken);
  }

  lemma GivingUpForgetsWhen<T>(s: State<T>, t: Thread, woken: Option<Thread>)
    requires Orderly(s) && NoItemForgotten(s) && s.closed && Enabled(s, ResumePop(t, woken))
    ensures NoItemForgotten(Awake(s, t)) <==> !LosesWakeUp(s, ResumePop(t, woken))
  {
    Shrinks(s.notifiedConsumers, t);
    if t in s.notifiedConsumers {
      assert t !in s.sleepingConsumers;
      Shrinks(s.sleepingConsumers, t);
    }
    hide Orderly;
  }

  lemma ResumePopForgetsWhen<T>(s: State<T>, t: Thread, woken: Option<Thread>)
    requires Orderly(s) && NoItemForgotten(s) && Enabled(s, ResumePop(t, woken))
    ensures NoItemForgotten(Next(s, ResumePop(t, woken))) <==> !LosesWakeUp(s, ResumePop(t, woken))
  {
    hide TryPop, NoItemForgotten;
    if s.closed {
      GivingUpForgetsWhen(s, t, woken);
    } else {
      assert NoItemForgotten(TryPop(Awake(s, t), t, woken)) by {
        AwakeIsOrderly(s, t);
        assert s.sleepingConsumers != {} ==> |s.queue| <= |s.notifiedConsumers| by {
          RememberedMeans(s);
        }
        hide Orderly;
        PopRemembersItem(Awake(s, t), t, woken);
      }
    }
  }

  lemma RememberedMeans<T>(s: State<T>)
    requires NoItemForgotten(s)
    ensures s.sleepingConsumers != {} ==> |s.queue| <= |s.notifiedConsumers|
  {
  }

  /** A step makes the queue forget an item beside a sleeping consumer if and only if it is of that kind. */
  lemma StepForgetsWhen<T>(s: State<T>, step: Step<T>)
    requires Attentive(s) && Enabled(s, step)
    ensures NoItemForgotten(Next(s, step)) <==> !LosesWakeUp(s, step)
  {
    match step {
      case Push(t, item, woken) =>
        hide Orderly, TryPush;
        PushRemembersItem(s, t, item, woken);
      case ResumePush(t, woken) => ResumePushRemembersItem(s, t, woken);
      case Pop(t, woken) =>
        hide Orderly, TryPop;
        PopRemembersItem(s, t, woken);
      case ResumePop(t, woken) => ResumePopForgetsWhen(s, t, woken);
      case Timeout(t) => AwakeIsOrderly(s, t);
      case Flush(woken) =>
        hide NotifyConsumer;
        NotifiedForItem(s, woken);
      case Close =>
      case WakeProducers =>
      case WakeConsumers =>
    }
  }

  /** No state of the run has forgotten an item. */
  ghost predicate NeverForgets<T>(first: State<T>, steps: seq<Step<T>>)
    decreases |steps|
  {
    && NoItemForgotten(first)
    && (steps != [] && Enabled(first, steps[0]) ==> NeverForgets(Next(first, steps[0]), steps[1..]))
  }

  /** No step of the run is of the kind that loses a wake-up. */
  predicate LosesNone<T>(first: State<T>, steps: seq<Step<T>>)
    decreases |steps|
  {
    steps != [] && Enabled(first, steps[0]) ==>
      !LosesWakeUp(first, steps[0]) && LosesNone(Next(first, steps[0]), steps[1..])
  }

  lemma {:induction false} RunForgetsWhen<T>(first: State<T>, steps: seq<Step<T>>, last: State<T>)
    requires Safe(first) && NoItemForgotten(first) && Reaches(first, steps, last)
    ensures NeverForgets(first, steps) <==> LosesNone(first, steps)
    ensures NeverForgets(first, steps) ==> NoItemForgotten(last)
    decreases |steps|
  {
    if steps != [] {
      var next := Next(first, steps[0]);
      StepIsSafe(first, steps[0]);
      StepForgetsWhen(first, steps[0]);
      hide Safe, NoItemForgotten, LosesWakeUp, Next, Enabled;
      if LosesWakeUp(first, steps[0]) {
        assert !NeverForgets(next, steps[1..]);
      } else {
        RunForgetsWhen(next, steps[1..], last);
      }
    }
  }

  /** In every run, closed or not, no item is ever forgotten beside a sleeping consumer if and only if no step of it
      is a consumer's giving up when it is needed; without closing there is no such step. */
  lemma EveryRunForgetsWhen<T>(capacity: nat, steps: seq<Step<T>>, s: State<T>)
    requires Reaches(Initial(capacity), steps, s)
    ensures NeverForgets(Initial<T>(capacity), steps) <==> LosesNone(Initial<T>(capacity), steps)
    ensures LosesNone(Initial<T>(capacity), steps) ==> NoItemForgotten(s)
  {
    RunForgetsWhen(Initial<T>(capacity), steps, s);
  }

  /** After `Close` a wake-up can be lost: the notified consumer gives up, and the item stays beside a sleeper. */
  lemma WakeUpLostAfterClose<T>(capacity: nat, x: T) returns (steps: seq<Step<T>>, s: State<T>)
    requires capacity > 0
    ensures Reaches(Initial(capacity), steps, s)
    ensures s.queue == [x] && s.sleepingConsumers == {1} && s.notifiedConsumers == {}
    ensures s.closers == s.lateClosers == 0
  {
    var s0 := Initial<T>(capacity);
    var s1 := Next(s0, Close);
    var s2 := Next(s1, WakeProducers);
    var s3 := Next(s2, WakeConsumers);
    assert s3 == s0.(closed := true);
    var rest;
    rest, s := WakeUpLostOnceClosed(capacity, x);
    steps := [Close, WakeProducers, WakeConsumers] + rest;
    assert steps[1..][1..][1..] == rest;
    hide Next, Enabled;
    assert Reaches(s2, steps[1..][1..], s);
    assert Reaches(s1, steps[1..], s);
  }

  /** Two consumers sleep, an item comes, and the one that is notified for it gives up. */
  lemma WakeUpLostOnceClosed<T>(capacity: nat, x: T) returns (steps: seq<Step<T>>, s: State<T>)
    requires capacity > 0
    ensures Reaches(Initial(capacity).(closed := true), steps, s)
    ensures s.queue == [x] && s.sleepingConsumers == {1} && s.notifiedConsumers == {}
    ensures s.closers == s.lateClosers == 0
  {
    steps := [Pop(0, None), Pop(1, None), Push(2, x, Some(0)), ResumePop(0, None)];
    var s0 := Initial<T>(capacity).(closed := true);
    var s1 := Next(s0, steps[0]);
    var s2 := Next(s1, steps[1]);
    assert s2.sleepingConsumers == {0, 1};
    var s3 := Next(s2, steps[2]);
    s := Next(s3, steps[3]);
    assert s.sleepingConsumers == {1} && s.notifiedConsumers == {};
    hide Next, Enabled;
    assert Reaches(s3, steps[3..], s);
    assert Reaches(s2, steps[2..], s);
    assert Reaches(s1, steps[1..], s);
  }
}
