/** The semaphore queue between threads (lib/util/Queue.h). */
module Queue {
  import opened ByteStrings

  // ---------- One thread ----------

  class Queue<T> {
    var semaphore: nat
    var items: seq<T>

    /** Between two calls the semaphore shows every message. */
    ghost predicate Valid()
      reads this
    {
      semaphore == |items|
    }

    constructor ()
      ensures Valid() && items == []
    {
      semaphore, items := 0, [];
    }

    /** `queue`. */
    method Enqueue(x: T)
      requires Valid()
      modifies this
      ensures Valid() && items == old(items) + [x]
    {
      items := items + [x];
      semaphore := semaphore + 1;
    }

    /** The value of the semaphore, which the code asks instead of the vector. */
    method MessagesWaiting() returns (n: nat)
      requires Valid()
      ensures n == |items|
    {
      n := semaphore;
    }

    method HasMessage() returns (waiting: bool)
      requires Valid()
      ensures waiting <==> items != []
    {
      var n := MessagesWaiting();
      waiting := n > 0;
    }

    /** `waitForMessage`, once the semaphore lets it pass. */
    method WaitForMessage() returns (message: T)
      requires Valid() && semaphore > 0
      modifies this
      ensures Valid() && old(items) == [message] + items
    {
      semaphore := semaphore - 1;
      message := items[0];
      var i := 1;
      while i < |items|
        invariant 1 <= i <= |items| == |old(items)| && semaphore == old(semaphore) - 1
        invariant forall k :: 0 <= k < i - 1 ==> items[k] == old(items)[k + 1]
        invariant forall k :: i <= k < |items| ==> items[k] == old(items)[k]
      {
        items := items[i - 1 := items[i]];
        i := i + 1;
      }
      items := items[..|items| - 1];
    }
  }

  // ---------- Many threads ----------

  /** Where a thread is inside `queue` or `waitForMessage`. */
  datatype Pc<T> =
    | Idle
    | Offering(value: T)     // in queue(), before the lock
    | OfferLocked(value: T)  // holds the lock
    | Pushed                 // holds the lock, push_back done
    | Posted                 // holds the lock, sem_post done
    | Waiting                // in sem_wait
    | Passed                 // past sem_wait, before the lock
    | TakeLocked             // holds the lock
    | Taken(value: T)        // holds the lock, message moved out

  /** `fault` records an access to `_queue[0]` of an empty vector. The two logs are histories. */
  datatype State<T> = State(threads: seq<Pc<T>>, queue: seq<T>, semaphore: nat, lock: Option<nat>,
                            enqueued: seq<T>, dequeued: seq<T>, fault: bool)

  datatype Action<T> = CallQueue(t: nat, x: T) | CallWait(t: nat) | Step(t: nat)

  predicate Holds<T>(pc: Pc<T>) {
    pc.OfferLocked? || pc.Pushed? || pc.Posted? || pc.TakeLocked? || pc.Taken?
  }

  /** A thread blocks in `sem_wait` at zero and on a lock that is held. */
  predicate CanStep<T>(s: State<T>, t: nat) {
    && t < |s.threads|
    && match s.threads[t]
       case Idle => false
       case Waiting => s.semaphore > 0
       case Offering(_) | Passed => s.lock.None?
       case _ => true
  }

  predicate Enabled<T>(s: State<T>, a: Action<T>) {
    match a
    case CallQueue(t, _) => t < |s.threads| && s.threads[t].Idle?
    case CallWait(t) => t < |s.threads| && s.threads[t].Idle?
    case Step(t) => CanStep(s, t)
  }

  function Next<T>(s: State<T>, a: Action<T>): State<T>
    requires Enabled(s, a)
  {
    match a
    case CallQueue(t, x) => s.(threads := s.threads[t := Offering(x)])
    case CallWait(t) => s.(threads := s.threads[t := Waiting])
    case Step(t) =>
      match s.threads[t]
      case Idle => s
      case Offering(x) => s.(threads := s.threads[t := OfferLocked(x)], lock := Some(t))
      case OfferLocked(x) =>
        s.(threads := s.threads[t := Pushed], queue := s.queue + [x], enqueued := s.enqueued + [x])
      case Pushed => s.(threads := s.threads[t := Posted], semaphore := s.semaphore + 1)
      case Posted => s.(threads := s.threads[t := Idle], lock := None)
      case Waiting => s.(threads := s.threads[t := Passed], semaphore := s.semaphore - 1)
      case Passed => s.(threads := s.threads[t := TakeLocked], lock := Some(t))
      case TakeLocked =>
        if s.queue == [] then s.(fault := true)
        else s.(threads := s.threads[t := Taken(s.queue[0])], queue := s.queue[1..], dequeued := s.dequeued + [s.queue[0]])
      case Taken(_) => s.(threads := s.threads[t := Idle], lock := None)
  }

  function Execute<T>(s: State<T>, run: seq<Action<T>>): State<T>
    decreases |run|
  {
    if run == [] then s
    else if Enabled(s, run[0]) then Execute(Next(s, run[0]), run[1..])
    else Execute(s, run[1..])
  }

  /** Any number of threads and an empty queue. */
  predicate Initial<T>(s: State<T>) {
    && s.queue == [] && s.enqueued == [] && s.dequeued == [] && s.semaphore == 0 && s.lock.None? && !s.fault
    && forall t :: 0 <= t < |s.threads| ==> s.threads[t].Idle?
  }

  /** One for each message in the vector that the semaphore does not show. */
  function Hidden<T>(pc: Pc<T>): nat {
    if pc.Pushed? || pc.Passed? || pc.TakeLocked? then 1 else 0
  }

  function TotalHidden<T>(threads: seq<Pc<T>>): nat {
    if threads == [] then 0 else Hidden(threads[0]) + TotalHidden(threads[1..])
  }

  lemma {:induction false} HiddenAfter<T>(threads: seq<Pc<T>>, t: nat, pc: Pc<T>)
    requires t < |threads|
    ensures TotalHidden(threads[t := pc]) == TotalHidden(threads) - Hidden(threads[t]) + Hidden(pc)
    ensures TotalHidden(threads) >= Hidden(threads[t])
  {
    if t == 0 {
      assert threads[0 := pc][1..] == threads[1..];
    } else {
      HiddenAfter(threads[1..], t - 1, pc);
      assert threads[t := pc][1..] == threads[1..][t - 1 := pc];
    }
  }

  /** The messages in the vector are the semaphore's value, those of consumers past the wait and that of a producer
      between push and post; in and out, they keep their order; and the lock has one holder. */
  ghost predicate Inv<T>(s: State<T>) {
    && !s.fault
    && |s.queue| == s.semaphore + TotalHidden(s.threads)
    && s.enqueued == s.dequeued + s.queue
    && (forall t :: 0 <= t < |s.threads| ==> (Holds(s.threads[t]) <==> s.lock == Some(t)))
    && (s.lock.Some? ==> s.lock.value < |s.threads|)
    && (forall t :: 0 <= t < |s.threads| && s.threads[t].Taken? ==>
          s.dequeued != [] && s.threads[t].value == s.dequeued[|s.dequeued| - 1])
  }

  lemma {:induction false} NobodyHides<T>(threads: seq<Pc<T>>)
    requires forall t :: 0 <= t < |threads| ==> Hidden(threads[t]) == 0
    ensures TotalHidden(threads) == 0
  {
    if threads == [] {
    } else {
      NobodyHides(threads[1..]);
    }
  }

  /** What a step of thread `t` keeps, given that the vector and the two logs go on together. */
  lemma StateKept<T>(s: State<T>, n: State<T>, t: nat)
    requires Inv(s) && t < |s.threads| && |n.threads| == |s.threads| && n.threads == s.threads[t := n.threads[t]]
    requires !n.fault && n.enqueued == n.dequeued + n.queue
    requires |n.queue| + s.semaphore + Hidden(s.threads[t]) == |s.queue| + n.semaphore + Hidden(n.threads[t])
    requires if Holds(n.threads[t]) then n.lock == Some(t) && (s.lock.None? || s.lock == Some(t))
             else if Holds(s.threads[t]) then n.lock.None? else n.lock == s.lock
    requires n.dequeued != s.dequeued ==> Holds(s.threads[t])
    requires n.threads[t].Taken? ==> n.dequeued != [] && n.threads[t].value == n.dequeued[|n.dequeued| - 1]
    ensures Inv(n)
  {
    hide TotalHidden, Hidden;
    HiddenAfter(s.threads, t, n.threads[t]);
  }

  lemma TakeKeepsOrder<T>(enqueued: seq<T>, dequeued: seq<T>, queue: seq<T>)
    requires enqueued == dequeued + queue && queue != []
    ensures enqueued == dequeued + [queue[0]] + queue[1..]
  {
  }

  lemma PushKeepsOrder<T>(enqueued: seq<T>, dequeued: seq<T>, queue: seq<T>, x: T)
    requires enqueued == dequeued + queue
    ensures enqueued + [x] == dequeued + (queue + [x])
  {
  }

  lemma NeverEmptyTake<T>(s: State<T>, t: nat)
    requires Inv(s) && t < |s.threads| && s.threads[t].TakeLocked?
    ensures s.queue != []
  {
    HiddenAfter(s.threads, t, Idle);
  }

  lemma StepKeeps<T>(s: State<T>, a: Action<T>)
    requires Inv(s) && Enabled(s, a)
    ensures Inv(Next(s, a))
  {
    var t := a.t;
    if a.Step? && s.threads[t].TakeLocked? {
      NeverEmptyTake(s, t);
      TakeKeepsOrder(s.enqueued, s.dequeued, s.queue);
    }
    if a.Step? && s.threads[t].OfferLocked? {
      PushKeepsOrder(s.enqueued, s.dequeued, s.queue, s.threads[t].value);
    }
    hide TotalHidden;
    StateKept(s, Next(s, a), t);
  }

  lemma {:induction false} RunKeeps<T>(s: State<T>, run: seq<Action<T>>)
    requires Inv(s)
    ensures Inv(Execute(s, run))
    decreases |run|
  {
    if run == [] {
    } else {
      if Enabled(s, run[0]) {
        StepKeeps(s, run[0]);
        RunKeeps(Next(s, run[0]), run[1..]);
      } else {
        RunKeeps(s, run[1..]);
      }
    }
  }

  /** In every interleaving of any producers and consumers: `_queue[0]` is never out of range, and what came out
      so far and what is still inside are what went in, in order. */
  lemma EveryRunIsFifo<T>(s: State<T>, run: seq<Action<T>>)
    requires Initial(s)
    ensures var e := Execute(s, run);
            && !e.fault && e.enqueued == e.dequeued + e.queue
            && |e.queue| == e.semaphore + TotalHidden(e.threads)
            && (forall t :: 0 <= t < |e.threads| && e.threads[t].TakeLocked? ==> e.queue != [])
  {
    NobodyHides(s.threads);
    RunKeeps(s, run);
    var e := Execute(s, run);
    forall t | 0 <= t < |e.threads| && e.threads[t].TakeLocked? ensures e.queue != [] {
      NeverEmptyTake(e, t);
    }
  }

  /** No run ends with a thread stuck while work is left: if no thread can move, then each is outside the queue or
      waits in `sem_wait`, and if one waits, every message ever queued was taken. */
  lemma NoLostWakeup<T>(s: State<T>, run: seq<Action<T>>)
    requires Initial(s)
    requires forall t :: 0 <= t < |s.threads| ==> !CanStep(Execute(s, run), t)
    ensures var e := Execute(s, run);
            && (forall t :: 0 <= t < |e.threads| ==> e.threads[t].Idle? || e.threads[t].Waiting?)
            && |e.queue| == e.semaphore
            && ((exists t :: 0 <= t < |e.threads| && e.threads[t].Waiting?) ==> e.queue == [] && e.dequeued == e.enqueued)
  {
    NobodyHides(s.threads);
    RunKeeps(s, run);
    SameThreads(s, run);
    var e := Execute(s, run);
    assert e.lock.Some? ==> CanStep(e, e.lock.value);
    forall t | 0 <= t < |e.threads| ensures e.threads[t].Idle? || e.threads[t].Waiting? {
      assert !CanStep(e, t);
    }
    forall t | 0 <= t < |e.threads| && e.threads[t].Waiting? ensures e.semaphore == 0 {
      assert !CanStep(e, t);
    }
    NobodyHides(e.threads);
  }

  lemma {:induction false} SameThreads<T>(s: State<T>, run: seq<Action<T>>)
    ensures |Execute(s, run).threads| == |s.threads|
    decreases |run|
  {
    if run == [] {
    } else {
      SameThreads(if Enabled(s, run[0]) then Next(s, run[0]) else s, run[1..]);
    }
  }
}
