/**
  The stand-alone thread pool (src/Core/StandaloneThreadPool.cc) as a state machine over its critical
  sections. Unlike the task queue of the platform, it notifies after it has released the lock, so an
  enqueued task and its notification are two steps.
 */
module ThreadPool {
  import opened Options

  datatype Worker = Asleep | Ready | Running(task: nat) | Exited

  /** How far the destructor has come. */
  datatype Shutdown = NotYet | Stopped | NotifiedAll | Joined

  /**
    `owed` counts producers that have released the lock but not notified yet. The rest is history:
    the tasks accepted and dequeued, in order, and those that have finished.
   */
  datatype State = State(
    queue: seq<nat>, workers: seq<Worker>, owed: nat, shutdown: Shutdown,
    accepted: seq<nat>, dequeued: seq<nat>, finished: multiset<nat>)

  /** `stop_` */
  predicate IsStopped(s: State) { !s.shutdown.NotYet? }

  datatype Event =
    | Enqueue(task: nat)
    | NotifyOne(woken: Option<nat>)
    | Dequeue(w: nat)
    | Sleep(w: nat)
    | Finish(w: nat)
    | Exit(w: nat)
    | WakeSpuriously(w: nat)
    | Stop
    | NotifyAll
    | Join

  ghost predicate SomeoneSleeps(ws: seq<Worker>) { exists k :: 0 <= k < |ws| && ws[k].Asleep? }

  /** Enqueueing on a stopped pool throws and is not a step. */
  ghost predicate Enabled(s: State, e: Event)
  {
    match e
    case Enqueue(_) => !IsStopped(s)
    case NotifyOne(woken) => s.owed > 0 &&
      (match woken case None => !SomeoneSleeps(s.workers) case Some(k) => k < |s.workers| && s.workers[k].Asleep?)
    case Dequeue(w) => w < |s.workers| && s.workers[w].Ready? && s.queue != []
    case Sleep(w) => w < |s.workers| && s.workers[w].Ready? && s.queue == [] && !IsStopped(s)
    case Finish(w) => w < |s.workers| && s.workers[w].Running?
    case Exit(w) => w < |s.workers| && s.workers[w].Ready? && s.queue == [] && IsStopped(s)
    case WakeSpuriously(w) => w < |s.workers| && s.workers[w].Asleep?
    case Stop => s.shutdown.NotYet?
    case NotifyAll => s.shutdown.Stopped?
    case Join => s.shutdown.NotifiedAll? && forall k :: 0 <= k < |s.workers| ==> s.workers[k].Exited?
  }

  function WakeAll(ws: seq<Worker>): (r: seq<Worker>)
    ensures |r| == |ws| && forall k :: 0 <= k < |ws| ==> r[k] == if ws[k].Asleep? then Ready else ws[k]
  {
    if ws == [] then [] else [if ws[0].Asleep? then Ready else ws[0]] + WakeAll(ws[1..])
  }

  ghost function Next(s: State, e: Event): State
    requires Enabled(s, e)
  {
    match e
    case Enqueue(t) => s.(queue := s.queue + [t], owed := s.owed + 1, accepted := s.accepted + [t])
    case NotifyOne(woken) =>
      s.(owed := s.owed - 1, workers := if woken.Some? then s.workers[woken.value := Ready] else s.workers)
    case Dequeue(w) =>
      s.(queue := s.queue[1..], workers := s.workers[w := Running(s.queue[0])], dequeued := s.dequeued + [s.queue[0]])
    case Sleep(w) => s.(workers := s.workers[w := Asleep])
    case Finish(w) => s.(workers := s.workers[w := Ready], finished := s.finished + multiset{s.workers[w].task})
    case Exit(w) => s.(workers := s.workers[w := Exited])
    case WakeSpuriously(w) => s.(workers := s.workers[w := Ready])
    case Stop => s.(shutdown := Stopped)
    case NotifyAll => s.(shutdown := NotifiedAll, workers := WakeAll(s.workers))
    case Join => s.(shutdown := Joined)
  }

  // ---------- counting workers ----------

  datatype Metric = ReadyWorkers | RunningTask(x: nat) | Remaining

  ghost function Value(w: Worker, m: Metric): nat
  {
    match m
    case ReadyWorkers => if w.Ready? then 1 else 0
    case RunningTask(x) => if w == Running(x) then 1 else 0
    case Remaining => if w.Running? then 2 else if w.Exited? then 0 else 1
  }

  ghost function Sum(ws: seq<Worker>, m: Metric): nat
  {
    if ws == [] then 0 else Value(ws[0], m) + Sum(ws[1..], m)
  }

  lemma {:induction false} SumUpdate(ws: seq<Worker>, i: nat, w: Worker, m: Metric)
    requires i < |ws|
    ensures Sum(ws[i := w], m) + Value(ws[i], m) == Sum(ws, m) + Value(w, m)
  {
    if i == 0 {
      assert ws[0 := w][1..] == ws[1..];
    } else {
      assert ws[i := w][1..] == ws[1..][i - 1 := w];
      SumUpdate(ws[1..], i - 1, w, m);
    }
  }

  lemma {:induction false} SumWakeAll(ws: seq<Worker>, m: Metric)
    requires !m.ReadyWorkers?
    ensures Sum(WakeAll(ws), m) == Sum(ws, m)
  {
    if ws != [] { SumWakeAll(ws[1..], m); }
  }

  lemma {:induction false} SumIsZero(ws: seq<Worker>, m: Metric)
    requires forall k :: 0 <= k < |ws| ==> Value(ws[k], m) == 0
    ensures Sum(ws, m) == 0
  {
    if ws != [] { SumIsZero(ws[1..], m); }
  }

  // ---------- the invariant ----------

  ghost predicate QueueInv(s: State)
  {
    // tasks leave the queue in the order they entered it
    && s.accepted == s.dequeued + s.queue
    // no wakeup is lost: whoever sleeps, the queued tasks have a worker awake or a notification coming
    && (SomeoneSleeps(s.workers) ==> |s.queue| <= Sum(s.workers, ReadyWorkers) + s.owed)
    // nobody sleeps once everybody has been notified of the stop
    && (SomeoneSleeps(s.workers) ==> s.shutdown.NotYet? || s.shutdown.Stopped?)
    && (forall k :: 0 <= k < |s.workers| && s.workers[k].Exited? ==> IsStopped(s) && s.queue == [])
    && (s.shutdown.Joined? ==> forall k :: 0 <= k < |s.workers| ==> s.workers[k].Exited?)
  }

  ghost predicate TaskInv(s: State, x: nat)
  {
    multiset(s.dequeued)[x] == s.finished[x] + Sum(s.workers, RunningTask(x))
  }

  ghost predicate Inv(s: State) { QueueInv(s) && forall x: nat :: TaskInv(s, x) }

  lemma QueueStep(s: State, e: Event)
    requires QueueInv(s) && Enabled(s, e)
    ensures QueueInv(Next(s, e))
  {
    match e
    case NotifyOne(woken) => if woken.Some? { SumUpdate(s.workers, woken.value, Ready, ReadyWorkers); }
    case Dequeue(w) => SumUpdate(s.workers, w, Running(s.queue[0]), ReadyWorkers);
    case Sleep(w) => SumUpdate(s.workers, w, Asleep, ReadyWorkers);
    case Finish(w) => SumUpdate(s.workers, w, Ready, ReadyWorkers);
    case Exit(w) => SumUpdate(s.workers, w, Exited, ReadyWorkers);
    case WakeSpuriously(w) => SumUpdate(s.workers, w, Ready, ReadyWorkers);
    case _ =>
  }

  lemma TaskStep(s: State, e: Event, x: nat)
    requires Enabled(s, e) && TaskInv(s, x)
    ensures TaskInv(Next(s, e), x)
  {
    match e
    case NotifyOne(woken) => if woken.Some? { SumUpdate(s.workers, woken.value, Ready, RunningTask(x)); }
    case Dequeue(w) => SumUpdate(s.workers, w, Running(s.queue[0]), RunningTask(x));
    case Sleep(w) => SumUpdate(s.workers, w, Asleep, RunningTask(x));
    case Finish(w) => SumUpdate(s.workers, w, Ready, RunningTask(x));
    case Exit(w) => SumUpdate(s.workers, w, Exited, RunningTask(x));
    case WakeSpuriously(w) => SumUpdate(s.workers, w, Ready, RunningTask(x));
    case NotifyAll => SumWakeAll(s.workers, RunningTask(x));
    case _ =>
  }

  lemma Step(s: State, e: Event)
    requires Inv(s) && Enabled(s, e)
    ensures Inv(Next(s, e))
  {
    QueueStep(s, e);
    forall x: nat ensures TaskInv(Next(s, e), x) { TaskStep(s, e, x); }
  }

  /** A pool of `n` workers that have passed the barrier. */
  function Start(n: nat): State
  {
    State([], seq(n, _ => Ready), 0, NotYet, [], [], multiset{})
  }

  lemma StartIsInv(n: nat)
    ensures Inv(Start(n))
  {
    forall x: nat ensures TaskInv(Start(n), x) { SumIsZero(Start(n).workers, RunningTask(x)); }
  }

  ghost predicate IsRun(states: seq<State>, events: seq<Event>)
  {
    && |states| == |events| + 1
    && forall i :: 0 <= i < |events| ==> Enabled(states[i], events[i]) && states[i + 1] == Next(states[i], events[i])
  }

  lemma {:induction false} RunKeepsInv(states: seq<State>, events: seq<Event>, i: nat)
    requires IsRun(states, events) && Inv(states[0]) && i < |states|
    ensures Inv(states[i])
  {
    if i > 0 {
      RunKeepsInv(states, events, i - 1);
      Step(states[i - 1], events[i - 1]);
    }
  }

  /** The tasks enqueued by these steps, in order. */
  function EnqueuedBy(events: seq<Event>): seq<nat>
  {
    if events == [] then []
    else EnqueuedBy(events[..|events| - 1]) + (var e := events[|events| - 1]; if e.Enqueue? then [e.task] else [])
  }

  /** Exactly the tasks of the run's Enqueue steps are accepted, in order. */
  lemma {:induction false} RunAcceptsAll(states: seq<State>, events: seq<Event>, i: nat)
    requires IsRun(states, events) && i < |states|
    ensures states[i].accepted == states[0].accepted + EnqueuedBy(events[..i])
  {
    if i == 0 {
      assert states[0].accepted + [] == states[0].accepted;
    } else {
      RunAcceptsAll(states, events, i - 1);
      assert events[..i][..i - 1] == events[..i - 1];
      var e := events[i - 1];
      var task := if e.Enqueue? then [e.task] else [];
      assert states[i].accepted == states[i - 1].accepted + task;
      assert states[0].accepted + EnqueuedBy(events[..i - 1]) + task == states[0].accepted + (EnqueuedBy(events[..i - 1]) + task);
    }
  }

  /**
    Shutdown: when the destructor has joined all workers, every enqueued task has run exactly once,
    the tasks were dequeued in the order they were enqueued, and no worker is left asleep.
   */
  lemma JoinedMeansAllDone(n: nat, states: seq<State>, events: seq<Event>)
    requires IsRun(states, events) && states[0] == Start(n)
    requires n > 0 && states[|events|].shutdown.Joined?
    ensures var s := states[|events|];
      && s.queue == [] && s.dequeued == s.accepted == EnqueuedBy(events)
      && s.finished == multiset(EnqueuedBy(events))
      && forall k :: 0 <= k < |s.workers| ==> s.workers[k].Exited?
  {
    var s := states[|events|];
    StartIsInv(n);
    RunKeepsInv(states, events, |events|);
    RunKeepsWorkers(states, events, |events|);
    RunAcceptsAll(states, events, |events|);
    assert events[..|events|] == events && [] + EnqueuedBy(events) == EnqueuedBy(events);
    assert s.workers[0].Exited?;
    assert s.dequeued + [] == s.dequeued;
    forall x: nat ensures s.finished[x] == multiset(s.dequeued)[x] {
      assert TaskInv(s, x);
      SumIsZero(s.workers, RunningTask(x));
    }
  }

  lemma {:induction false} RunKeepsWorkers(states: seq<State>, events: seq<Event>, i: nat)
    requires IsRun(states, events) && i < |states|
    ensures |states[i].workers| == |states[0].workers|
  {
    if i > 0 { RunKeepsWorkers(states, events, i - 1); }
  }

  // ---------- the shutdown ends ----------

  /** Remaining tasks, live workers, outstanding notifications and phases of the destructor. */
  ghost function Measure(s: State): nat
  {
    2 * |s.queue| + Sum(s.workers, Remaining) + s.owed
    + match s.shutdown case NotYet => 3 case Stopped => 2 case NotifiedAll => 1 case Joined => 0
  }

  /** Once the pool is stopped, every step other than a spurious wakeup lowers the measure. */
  lemma MeasureDecreases(s: State, e: Event)
    requires QueueInv(s) && IsStopped(s) && Enabled(s, e) && !e.WakeSpuriously?
    ensures IsStopped(Next(s, e)) && Measure(Next(s, e)) < Measure(s)
  {
    match e
    case NotifyOne(woken) => if woken.Some? { SumUpdate(s.workers, woken.value, Ready, Remaining); }
    case Dequeue(w) => SumUpdate(s.workers, w, Running(s.queue[0]), Remaining);
    case Finish(w) => SumUpdate(s.workers, w, Ready, Remaining);
    case Exit(w) => SumUpdate(s.workers, w, Exited, Remaining);
    case NotifyAll => SumWakeAll(s.workers, Remaining);
    case _ =>
  }

  /** And until all workers are joined there is such a step. */
  lemma ShutdownNeverStuck(s: State) returns (e: Event)
    requires QueueInv(s) && IsStopped(s) && !s.shutdown.Joined?
    ensures Enabled(s, e) && !e.WakeSpuriously? && !e.Enqueue?
  {
    if s.shutdown.Stopped? {
      e := NotifyAll;
    } else if forall k :: 0 <= k < |s.workers| ==> s.workers[k].Exited? {
      e := Join;
    } else {
      var w: nat :| w < |s.workers| && !s.workers[w].Exited?;
      if s.workers[w].Running? {
        e := Finish(w);
      } else {
        assert !s.workers[w].Asleep?;
        e := if s.queue == [] then Exit(w) else Dequeue(w);
      }
    }
  }

  /** How many steps are not spurious wakeups. */
  ghost function ProperSteps(events: seq<Event>): nat
  {
    if events == [] then 0
    else ProperSteps(events[..|events| - 1]) + if events[|events| - 1].WakeSpuriously? then 0 else 1
  }

  /** Hence a stopped pool takes at most as many steps as the measure, whatever the interleaving. */
  lemma {:induction false} ShutdownTerminates(states: seq<State>, events: seq<Event>)
    requires IsRun(states, events) && Inv(states[0]) && IsStopped(states[0])
    ensures IsStopped(states[|events|])
    ensures ProperSteps(events) + Measure(states[|events|]) <= Measure(states[0])
    decreases |events|
  {
    if events != [] {
      var n := |events| - 1;
      assert IsRun(states[..n + 1], events[..n]);
      assert Enabled(states[n], events[n]) && states[n + 1] == Next(states[n], events[n]);
      ShutdownTerminates(states[..n + 1], events[..n]);
      RunKeepsInv(states, events, n);
      hide IsRun;
      if events[n].WakeSpuriously? {
        SumUpdate(states[n].workers, events[n].w, Ready, Remaining);
      } else {
        MeasureDecreases(states[n], events[n]);
      }
    }
  }
}
