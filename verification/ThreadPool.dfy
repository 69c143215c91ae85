/** server/thread_pool.h as a state machine: every atomic section under the mutex, every
    notification and every return of a task is one event, interleaved in any order. */
module ThreadPool {
  import opened Sequences

  /** Checking: about to evaluate the wait predicate (just started, woken, or back from a task).
      Waiting: blocked on the condition variable. Running(k): executing the k-th task dequeued. */
  datatype Worker = Checking | Waiting | Running(k: nat) | Exited

  /** queue, stop and the workers are the pool's own state. owed counts enqueuers that have pushed
      but not yet called notify_one; allOwed says the destructor has set stop but not yet called
      notify_all. accepted, dequeued and done are history: tasks pushed, tasks popped, and which
      pops have run to completion. */
  datatype State<T> = State(
    queue: seq<T>, stop: bool, workers: seq<Worker>, owed: nat, allOwed: bool,
    accepted: seq<T>, dequeued: seq<T>, done: seq<nat>)

  datatype Event<T> =
    | Enqueue(task: T)
    | RejectEnqueue(task: T)
    | NotifyOne(woken: nat)
    | NotifyNobody
    | SpuriousWake(w: nat)
    | Wait(w: nat)
    | Take(w: nat)
    | Exit(w: nat)
    | Finish(w: nat)
    | Stop
    | NotifyAll

  ghost predicate Is(s: State, w: nat, x: Worker) {
    w < |s.workers| && s.workers[w] == x
  }

  ghost predicate SomeWaiting(s: State) {
    exists w: nat :: Is(s, w, Waiting)
  }

  /** The wait predicate of workerLoop. */
  predicate Ready(s: State) {
    s.stop || s.queue != []
  }

  ghost predicate Enabled(s: State, e: Event) {
    match e
    case Enqueue(_) => !s.stop
    case RejectEnqueue(_) => s.stop
    case NotifyOne(w) => s.owed > 0 && Is(s, w, Waiting)
    case NotifyNobody => s.owed > 0 && !SomeWaiting(s)
    case SpuriousWake(w) => Is(s, w, Waiting)
    case Wait(w) => Is(s, w, Checking) && !Ready(s)
    case Take(w) => Is(s, w, Checking) && s.queue != []
    case Exit(w) => Is(s, w, Checking) && s.stop && s.queue == []
    case Finish(w) => w < |s.workers| && s.workers[w].Running?
    case Stop => !s.stop
    case NotifyAll => s.allOwed
  }

  function WakeAll(workers: seq<Worker>): (r: seq<Worker>)
    ensures |r| == |workers|
    ensures forall w :: 0 <= w < |r| ==> r[w] == if workers[w] == Waiting then Checking else workers[w]
  {
    seq(|workers|, w requires 0 <= w < |workers| => if workers[w] == Waiting then Checking else workers[w])
  }

  ghost function Next<T>(s: State<T>, e: Event<T>): State<T>
    requires Enabled(s, e)
  {
    match e
    case Enqueue(t) => s.(queue := s.queue + [t], accepted := s.accepted + [t], owed := s.owed + 1)
    case RejectEnqueue(_) => s
    case NotifyOne(w) => s.(owed := s.owed - 1, workers := s.workers[w := Checking])
    case NotifyNobody => s.(owed := s.owed - 1)
    case SpuriousWake(w) => s.(workers := s.workers[w := Checking])
    case Wait(w) => s.(workers := s.workers[w := Waiting])
    case Take(w) => s.(queue := s.queue[1..], dequeued := s.dequeued + [s.queue[0]],
                       workers := s.workers[w := Running(|s.dequeued|)])
    case Exit(w) => s.(workers := s.workers[w := Exited])
    case Finish(w) => s.(workers := s.workers[w := Checking], done := s.done + [s.workers[w].k])
    case Stop => s.(stop := true, allOwed := true)
    case NotifyAll => s.(allOwed := false, workers := WakeAll(s.workers))
  }

  /** Tasks leave the queue in the order they were accepted. */
  ghost predicate Fifo(s: State) {
    s.accepted == s.dequeued + s.queue
  }

  /** No dequeued task is with two workers, or with one and done, or done twice. */
  ghost predicate NoneTwice(s: State) {
    && Injection(s.done, |s.dequeued|)
    && (forall w :: 0 <= w < |s.workers| && s.workers[w].Running? ==>
         s.workers[w].k < |s.dequeued| && s.workers[w].k !in s.done)
    && (forall w, w' :: 0 <= w < w' < |s.workers| && s.workers[w].Running? ==> s.workers[w] != s.workers[w'])
  }

  /** Every dequeued task is with a worker or done. */
  ghost predicate NoneLost(s: State) {
    forall k: nat :: k < |s.dequeued| ==> k in s.done || exists w: nat :: Is(s, w, Running(k))
  }

  /** 1 for each worker about to look at the queue. */
  function Lookers(workers: seq<Worker>): (r: seq<int>)
    ensures |r| == |workers| && forall w :: 0 <= w < |r| ==> r[w] == if workers[w] == Checking then 1 else 0
  {
    seq(|workers|, w requires 0 <= w < |workers| => if workers[w] == Checking then 1 else 0)
  }

  /** No lost wakeup. While anybody sleeps, there is for each queued task a notification still owed
      or a worker about to look, unless notify_all is still to come; and once stop is set, nobody
      sleeps unless notify_all is still to come. */
  ghost predicate NoLostWakeup(s: State) {
    && (SomeWaiting(s) && !s.allOwed ==> |s.queue| <= s.owed + Sum(Lookers(s.workers)))
    && (s.stop ==> s.allOwed || !SomeWaiting(s))
  }

  /** Workers leave only a stopped and empty pool, and there is at least one. */
  ghost predicate ExitsLate(s: State) {
    && |s.workers| > 0
    && (forall w: nat :: Is(s, w, Exited) ==> s.stop && s.queue == [])
    && (s.allOwed ==> s.stop)
  }

  ghost predicate Inv(s: State) {
    Fifo(s) && NoneTwice(s) && NoneLost(s) && NoLostWakeup(s) && ExitsLate(s)
  }

  ghost predicate Initial<T>(s: State<T>) {
    && s.queue == s.accepted == s.dequeued == [] && s.done == []
    && !s.stop && s.owed == 0 && !s.allOwed
    && |s.workers| > 0 && forall w :: 0 <= w < |s.workers| ==> s.workers[w] == Checking
  }

  lemma InitialInv<T>(s: State<T>)
    requires Initial(s)
    ensures Inv(s)
  {
  }

  lemma NextKeepsFifo<T>(s: State<T>, e: Event<T>)
    requires Fifo(s) && Enabled(s, e)
    ensures Fifo(Next(s, e))
  {
  }

  lemma NextKeepsNoneTwice<T>(s: State<T>, e: Event<T>)
    requires NoneTwice(s) && Enabled(s, e)
    ensures NoneTwice(Next(s, e))
  {
    if e.Finish? {
      var s' := Next(s, e);
      assert forall x :: x in s'.done <==> x in s.done || x == s.workers[e.w].k;
    }
  }

  lemma NextKeepsNoneLost<T>(s: State<T>, e: Event<T>)
    requires NoneLost(s) && Enabled(s, e)
    ensures NoneLost(Next(s, e))
  {
    var s' := Next(s, e);
    forall k: nat | k < |s'.dequeued| ensures k in s'.done || exists w: nat :: Is(s', w, Running(k)) {
      if k == |s.dequeued| {
        assert Is(s', e.w, Running(k));
      } else if w: nat :| Is(s, w, Running(k)) {
        if e.Finish? && e.w == w {
          assert s'.done[|s.done|] == k;
        } else {
          assert Is(s', w, Running(k));
        }
      } else {
        assert k in s.done;
      }
    }
  }

  lemma LookersUpdate(workers: seq<Worker>, w: nat, x: Worker)
    requires w < |workers|
    ensures Sum(Lookers(workers[w := x]))
         == Sum(Lookers(workers)) - (if workers[w] == Checking then 1 else 0) + (if x == Checking then 1 else 0)
  {
    var bit := if x == Checking then 1 else 0;
    SumUpdate(Lookers(workers), w, bit);
    assert Lookers(workers[w := x]) == Lookers(workers)[w := bit];
  }

  lemma NextKeepsWakeups<T>(s: State<T>, e: Event<T>)
    requires NoLostWakeup(s) && Enabled(s, e)
    ensures NoLostWakeup(Next(s, e))
  {
    var s' := Next(s, e);
    SumBounded(Lookers(s'.workers), 0, 1);
    assert forall w: nat :: Is(s', w, Waiting) ==> e == Wait(w) || Is(s, w, Waiting);
    match e
    case NotifyOne(w) => LookersUpdate(s.workers, w, Checking);
    case SpuriousWake(w) => LookersUpdate(s.workers, w, Checking);
    case Wait(w) => LookersUpdate(s.workers, w, Waiting);
    case Take(w) => LookersUpdate(s.workers, w, Running(|s.dequeued|));
    case Exit(w) => LookersUpdate(s.workers, w, Exited);
    case Finish(w) => LookersUpdate(s.workers, w, Checking);
    case _ =>
  }

  lemma NextKeepsExits<T>(s: State<T>, e: Event<T>)
    requires ExitsLate(s) && Enabled(s, e)
    ensures ExitsLate(Next(s, e))
  {
    var s' := Next(s, e);
    forall w: nat | Is(s', w, Exited) ensures s'.stop && s'.queue == [] {
      assert Is(s, w, Exited) || e == Exit(w);
    }
  }

  lemma NextKeepsInv<T>(s: State<T>, e: Event<T>)
    requires Inv(s) && Enabled(s, e)
    ensures Inv(Next(s, e))
  {
    NextKeepsFifo(s, e);
    NextKeepsNoneTwice(s, e);
    NextKeepsNoneLost(s, e);
    NextKeepsWakeups(s, e);
    NextKeepsExits(s, e);
  }

  // ---- whole runs ----

  /** es leads from s to s', each event enabled where it happens. */
  ghost predicate Run<T>(s: State<T>, es: seq<Event<T>>, s': State<T>)
    decreases |es|
  {
    if es == [] then s == s' else Enabled(s, es[0]) && Run(Next(s, es[0]), es[1..], s')
  }

  lemma {:induction false} RunKeepsInv<T>(s: State<T>, es: seq<Event<T>>, s': State<T>)
    requires Inv(s) && Run(s, es, s')
    ensures Inv(s')
    decreases |es|
  {
    if es != [] {
      NextKeepsInv(s, es[0]);
      RunKeepsInv(Next(s, es[0]), es[1..], s');
    }
  }

  /** The tasks of the enqueue events of a run, in order. */
  function Tasks<T>(es: seq<Event<T>>): seq<T> {
    if es == [] then [] else (if es[0].Enqueue? then [es[0].task] else []) + Tasks(es[1..])
  }

  /** Exactly those are accepted, and nothing that was accepted is forgotten. */
  lemma {:induction false} RunAccepts<T>(s: State<T>, es: seq<Event<T>>, s': State<T>)
    requires Run(s, es, s')
    ensures s'.accepted == s.accepted + Tasks(es)
    decreases |es|
  {
    if es != [] {
      RunAccepts(Next(s, es[0]), es[1..], s');
    }
  }

  ghost predicate AllExited(s: State) {
    forall w :: 0 <= w < |s.workers| ==> s.workers[w] == Exited
  }

  /** An injection that hits everything is a permutation. */
  lemma DoneIsPermutation(p: seq<int>, n: nat)
    requires Injection(p, n) && forall k :: 0 <= k < n ==> k in p
    ensures Permutation(p, n)
  {
    Pigeonhole(p, n);
  }

  lemma FreshPool<T>(s: State<T>)
    requires Initial(s)
    ensures s.accepted == [] && |s.workers| > 0
  {
  }

  /** When the destructor's joins return, every task ever enqueued has been dequeued in the order it was
      enqueued and has run exactly once, whatever the interleaving. */
  lemma JoinedMeansDrained<T>(s0: State<T>, es: seq<Event<T>>, s: State<T>)
    requires Initial(s0) && Run(s0, es, s) && AllExited(s)
    ensures s.stop && s.queue == [] && s.dequeued == s.accepted == Tasks(es)
    ensures Permutation(s.done, |Tasks(es)|)
  {
    hide Tasks, Run, NoLostWakeup, Initial;
    RunAccepts(s0, es, s);
    FreshPool(s0);
    InitialInv(s0);
    RunKeepsInv(s0, es, s);
    assert Is(s, 0, Exited);
    forall k: nat | k < |s.dequeued| ensures k in s.done {
      assert forall w: nat :: !Is(s, w, Running(k));
    }
    DoneIsPermutation(s.done, |s.dequeued|);
  }

  /** Nothing is accepted after stop. */
  lemma {:induction false} StopSticks<T>(s: State<T>, es: seq<Event<T>>, s': State<T>)
    requires s.stop && Run(s, es, s')
    ensures s'.stop && s'.accepted == s.accepted
    decreases |es|
  {
    if es != [] {
      StopSticks(Next(s, es[0]), es[1..], s');
    }
  }

  // ---- shutdown ----

  function Weight(w: Worker): nat {
    match w
    case Exited => 0
    case Checking => 1
    case Running(_) => 2
    case Waiting => 2
  }

  function Weights(workers: seq<Worker>): (r: seq<int>)
    ensures |r| == |workers| && forall w :: 0 <= w < |r| ==> r[w] == Weight(workers[w])
  {
    seq(|workers|, w requires 0 <= w < |workers| => Weight(workers[w]))
  }

  /** How much is left to do before the destructor can return. */
  function Left(s: State): int {
    2 * |s.queue| + s.owed + (if s.allOwed then 1 else 0) + Sum(Weights(s.workers))
  }

  lemma LeftNonNegative(s: State)
    ensures Left(s) >= 0
  {
    SumBounded(Weights(s.workers), 0, 2);
  }

  lemma ReweighOne(workers: seq<Worker>, w: nat, x: Worker)
    requires w < |workers|
    ensures Sum(Weights(workers[w := x])) == Sum(Weights(workers)) - Weight(workers[w]) + Weight(x)
  {
    SumUpdate(Weights(workers), w, Weight(x));
    assert Weights(workers[w := x]) == Weights(workers)[w := Weight(x) as int];
  }

  /** After stop every event but a rejected enqueue uses something up. */
  lemma StoppedRunsDown<T>(s: State<T>, e: Event<T>)
    requires s.stop && Enabled(s, e) && !e.RejectEnqueue?
    ensures Left(Next(s, e)) < Left(s)
  {
    match e
    case NotifyOne(w) => ReweighOne(s.workers, w, Checking);
    case SpuriousWake(w) => ReweighOne(s.workers, w, Checking);
    case Take(w) => ReweighOne(s.workers, w, Running(|s.dequeued|));
    case Exit(w) => ReweighOne(s.workers, w, Exited);
    case Finish(w) => ReweighOne(s.workers, w, Checking);
    case NotifyAll => SumMonotone(Weights(WakeAll(s.workers)), Weights(s.workers));
    case _ =>
  }

  /** How many events of es are not rejected enqueues. */
  function Effective<T>(es: seq<Event<T>>): nat {
    if es == [] then 0 else (if es[0].RejectEnqueue? then 0 else 1) + Effective(es[1..])
  }

  /** Shutdown terminates: a run that starts stopped has at most Left(s) effective events. */
  lemma {:induction false} ShutdownBounded<T>(s: State<T>, es: seq<Event<T>>, s': State<T>)
    requires s.stop && Run(s, es, s')
    ensures Effective(es) <= Left(s) - Left(s') <= Left(s)
    ensures (forall i :: 0 <= i < |es| ==> !es[i].RejectEnqueue?) ==> Effective(es) == |es|
    ensures Left(s) <= 2 * |s.queue| + s.owed + 1 + 2 * |s.workers|
    decreases |es|
  {
    LeftNonNegative(s');
    SumBounded(Weights(s.workers), 0, 2);
    if es != [] {
      var t := Next(s, es[0]);
      ShutdownBounded(t, es[1..], s');
      if !es[0].RejectEnqueue? {
        StoppedRunsDown(s, es[0]);
      }
    }
  }

  /** Shutdown never gets stuck: until all workers have exited, some effective event is enabled that
      does not rely on a spurious wakeup. Together with the bound, the joins return. */
  lemma ShutdownProceeds<T>(s: State<T>) returns (e: Event<T>)
    requires Inv(s) && s.stop && !AllExited(s)
    ensures Enabled(s, e) && !e.RejectEnqueue? && !e.SpuriousWake?
  {
    var w: nat :| w < |s.workers| && s.workers[w] != Exited;
    if s.allOwed {
      e := NotifyAll;
    } else {
      assert !Is(s, w, Waiting);
      e := if s.workers[w].Running? then Finish(w) else if s.queue != [] then Take(w) else Exit(w);
    }
  }

  /** Somebody among the workers is about to look. */
  lemma SomeLooker(workers: seq<Worker>) returns (w: nat)
    requires Sum(Lookers(workers)) > 0
    ensures w < |workers| && workers[w] == Checking
  {
    if forall w :: 0 <= w < |workers| ==> workers[w] != Checking {
      SumZero(Lookers(workers));
    }
    w :| w < |workers| && workers[w] == Checking;
  }

  /** A sleeper may wake at any time: by any notification owed, or for no reason at all. */
  lemma AnySleeperMayWake<T>(s: State<T>, w: nat)
    requires Is(s, w, Waiting)
    ensures Enabled(s, SpuriousWake(w)) && Is(Next(s, SpuriousWake(w)), w, Checking)
    ensures s.owed > 0 ==> Enabled(s, NotifyOne(w)) && Is(Next(s, NotifyOne(w)), w, Checking)
  {
  }

  /** Queued work never gets stuck either, stopped or not: while anybody sleeps, what comes next is a
      notification or the taking of a task, and never just some busy worker getting done. */
  lemma QueuedWorkProceeds<T>(s: State<T>) returns (e: Event<T>)
    requires Inv(s) && s.queue != []
    ensures Enabled(s, e)
    ensures e.NotifyOne? || e.NotifyNobody? || e.NotifyAll? || e.Take? || e.Finish?
    ensures SomeWaiting(s) ==> e.NotifyOne? || e.NotifyAll? || e.Take?
  {
    if s.allOwed {
      e := NotifyAll;
    } else if s.owed > 0 {
      if w: nat :| Is(s, w, Waiting) {
        e := NotifyOne(w);
      } else {
        e := NotifyNobody;
      }
    } else if SomeWaiting(s) {
      var w := SomeLooker(s.workers);
      e := Take(w);
    } else {
      assert !Is(s, 0, Exited) && !Is(s, 0, Waiting);
      e := if s.workers[0].Running? then Finish(0) else Take(0);
    }
  }

  // ---- the class ----

  datatype Outcome = Accepted | StoppedError

  /** The pool's queue and stop flag; where the threads stand and the history are ghost. Each method
      is one atomic section. */
  class ThreadPool<T(0)> {
    var queue: seq<T>
    var stop: bool
    ghost var workers: seq<Worker>
    ghost var owed: nat
    ghost var allOwed: bool
    ghost var accepted: seq<T>
    ghost var dequeued: seq<T>
    ghost var done: seq<nat>

    ghost function View(): State<T>
      reads this
    {
      State(queue, stop, workers, owed, allOwed, accepted, dequeued, done)
    }

    /** Zero threads means the hardware's count, at least one. */
    constructor (threadCount: nat, hardware: nat)
      ensures Initial(View())
      ensures |workers| == if threadCount != 0 then threadCount else if hardware > 1 then hardware else 1
    {
      var count := threadCount;
      if count == 0 {
        count := if hardware > 1 then hardware else 1;
      }
      queue, stop, workers := [], false, seq(count, _ => Checking);
      owed, allOwed, accepted, dequeued, done := 0, false, [], [], [];
    }

    /** The locked section of `enqueue`: push, or refuse on a stopped pool. */
    method EnqueueTask(task: T) returns (r: Outcome)
      modifies this
      ensures r == StoppedError <==> old(stop)
      ensures queue == if r == Accepted then old(queue) + [task] else old(queue)
      ensures var e := if old(stop) then RejectEnqueue(task) else Enqueue(task);
              old(Enabled(View(), e)) && View() == old(Next(View(), e))
    {
      if stop {
        return StoppedError;
      }
      queue := queue + [task];
      accepted, owed := accepted + [task], owed + 1;
      r := Accepted;
    }

    /** The locked section of `workerLoop` for worker w: wait, leave, or take the front task. */
    method WorkerSection(w: nat) returns (task: T, taken: bool)
      requires w < |workers| && workers[w] == Checking
      modifies this
      ensures var e := if !old(Ready(View())) then Wait(w) else if old(queue) == [] then Exit(w) else Take(w);
              old(Enabled(View(), e)) && View() == old(Next(View(), e))
      ensures taken <==> old(queue) != []
      ensures taken ==> task == old(queue)[0] && queue == old(queue)[1..]
      ensures !taken ==> queue == old(queue)
      ensures stop == old(stop)
    {
      taken := false;
      task := *;
      if !(stop || queue != []) {
        workers := workers[w := Waiting];
        return;
      }
      if stop && queue == [] {
        workers := workers[w := Exited];
        return;
      }
      task := queue[0];
      workers := workers[w := Running(|dequeued|)];
      dequeued := dequeued + [task];
      queue := queue[1..];
      taken := true;
    }

    /** The locked section of the destructor. */
    method SetStop()
      requires !stop
      modifies this
      ensures old(Enabled(View(), Stop)) && View() == old(Next(View(), Stop))
      ensures stop && queue == old(queue)
    {
      stop := true;
      allOwed := true;
    }

    /** cv_.notify_all after it. */
    method WakeAllWorkers()
      requires allOwed
      modifies this
      ensures old(Enabled(View(), NotifyAll)) && View() == old(Next(View(), NotifyAll))
      ensures queue == old(queue) && stop == old(stop) && owed == old(owed)
      ensures forall w :: 0 <= w < |workers| ==> workers[w] != Waiting
    {
      workers := WakeAll(workers);
      allOwed := false;
    }
  }
}
