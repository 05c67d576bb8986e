/**
  The worker pool and the draining of tasks (src/Gallium/Platform.cc over
  src/Core/ConcurrentTaskQueue.h), as a state machine whose steps are the critical sections. Any
  thread may take the next step, so a theorem about all runs is one about all interleavings.

  A task is a finite tree: while it runs it posts its children, each of which says whether it goes
  to the workers or to the foreground queue of the main thread, which is inside DrainTasks.
 */
module Platform {
  import opened TaskQueue
  import opened Options

  datatype Task = Task(id: nat, toWorkers: bool, posts: seq<Task>)

  /** A worker thread. `Ready` is awake and about to look at the queue. */
  datatype Worker = Asleep | Ready | Running(task: Task, todo: seq<Task>) | Exited

  /**
    The main thread. `Checking` is about to test the counter in WaitDrain, `Blocked` waits there,
    `Drained` has left WaitDrain and is about to take the foreground queue, `Batch` works on what
    it took (`current` is the task being run).
   */
  datatype Main = Checking | Blocked | Drained | Batch(current: Option<(Task, seq<Task>)>, rest: seq<Task>) | Done

  /**
    Besides the state proper: the tasks pushed to the workers, taken and finished by them, the tasks
    posted to the foreground and those run there, and whether another thread has pushed a task.
   */
  datatype State = State(
    queue: Queue<Task>, workers: seq<Worker>, foreground: Queue<Task>, main: Main,
    pushed: seq<Task>, taken: seq<Task>, finished: multiset<Task>,
    posted: seq<Task>, ran: seq<Task>, external: bool)

  /** `woken` is the sleeping worker that the notification of a push reaches, if any sleeps. */
  datatype Event =
    | Take(w: nat)
    | Sleep(w: nat)
    | WorkerPost(w: nat, woken: Option<nat>)
    | Finish(w: nat)
    | Check
    | PopForeground
    | RunNext
    | MainPost(woken: Option<nat>)
    | MainFinish
    | WakeSpuriously(w: nat)
    | UnblockSpuriously
    | ExternalPush(task: Task, woken: Option<nat>)
    | Dispose

  // ---------- steps ----------

  ghost predicate SomeoneSleeps(ws: seq<Worker>) { exists k :: 0 <= k < |ws| && ws[k].Asleep? }

  /** One sleeping worker is woken, unless none sleeps. */
  ghost predicate IsWoken(ws: seq<Worker>, woken: Option<nat>)
  {
    match woken
    case None => !SomeoneSleeps(ws)
    case Some(k) => k < |ws| && ws[k].Asleep?
  }

  function Wake(ws: seq<Worker>, woken: Option<nat>): seq<Worker>
  {
    if woken.Some? && woken.value < |ws| then ws[woken.value := Ready] else ws
  }

  function WakeAll(ws: seq<Worker>): (r: seq<Worker>)
    ensures |r| == |ws|
    ensures forall k :: 0 <= k < |ws| ==> r[k] == if ws[k].Asleep? then Ready else ws[k]
  {
    if ws == [] then [] else [if ws[0].Asleep? then Ready else ws[0]] + WakeAll(ws[1..])
  }

  function PushTask(s: State, t: Task, woken: Option<nat>): State
  {
    s.(queue := Pushed(s.queue, t), workers := Wake(s.workers, woken), pushed := s.pushed + [t])
  }

  function Post(s: State, t: Task, woken: Option<nat>): State
  {
    if t.toWorkers then PushTask(s, t, woken)
    else s.(foreground := Pushed(s.foreground, t), posted := s.posted + [t])
  }

  /** The event can happen in the state. */
  ghost predicate Enabled(s: State, e: Event)
  {
    match e
    case Take(w) => w < |s.workers| && s.workers[w].Ready? && MayPass(s.queue)
    case Sleep(w) => w < |s.workers| && s.workers[w].Ready? && !MayPass(s.queue)
    case WorkerPost(w, woken) => w < |s.workers| && s.workers[w].Running? && s.workers[w].todo != [] && IsWoken(s.workers, woken)
    case Finish(w) => w < |s.workers| && s.workers[w].Running? && s.workers[w].todo == []
    case Check => s.main.Checking?
    case PopForeground => s.main.Drained?
    case RunNext => s.main.Batch? && s.main.current.None?
    case MainPost(woken) => s.main.Batch? && s.main.current.Some? && s.main.current.value.1 != [] && IsWoken(s.workers, woken)
    case MainFinish => s.main.Batch? && s.main.current.Some? && s.main.current.value.1 == []
    case WakeSpuriously(w) => w < |s.workers| && s.workers[w].Asleep?
    case UnblockSpuriously => s.main.Blocked?
    case ExternalPush(t, woken) => t.toWorkers && IsWoken(s.workers, woken)
    case Dispose => true
  }

  ghost function Next(s: State, e: Event): State
    requires Enabled(s, e)
  {
    match e
    case Take(w) =>
      if s.queue.disposed then s.(workers := s.workers[w := Exited])
      else
        var t := s.queue.tasks[0];
        s.(queue := Popped(s.queue), workers := s.workers[w := Running(t, t.posts)], taken := s.taken + [t])
    case Sleep(w) => s.(workers := s.workers[w := Asleep])
    case WorkerPost(w, woken) =>
      var Running(t, todo) := s.workers[w];
      Post(s.(workers := s.workers[w := Running(t, todo[1..])]), todo[0], woken)
    case Finish(w) =>
      var queue := Completed(s.queue);
      var main := if queue.outstanding == 0 && s.main.Blocked? then Checking else s.main;
      s.(queue := queue, workers := s.workers[w := Ready], main := main,
         finished := s.finished + multiset{s.workers[w].task})
    case Check => s.(main := if s.queue.outstanding > 0 then Blocked else Drained)
    case PopForeground =>
      if s.foreground.tasks == [] then s.(main := Done)
      else s.(main := Batch(None, s.foreground.tasks), foreground := Emptied(s.foreground))
    case RunNext =>
      var rest := s.main.rest;
      if rest == [] then s.(main := Checking)
      else s.(main := Batch(Some((rest[0], rest[0].posts)), rest[1..]))
    case MainPost(woken) =>
      var (t, todo) := s.main.current.value;
      Post(s.(main := Batch(Some((t, todo[1..])), s.main.rest)), todo[0], woken)
    case MainFinish =>
      s.(main := Batch(None, s.main.rest), ran := s.ran + [s.main.current.value.0])
    case WakeSpuriously(w) => s.(workers := s.workers[w := Ready])
    case UnblockSpuriously => s.(main := Checking)
    case ExternalPush(t, woken) => PushTask(s, t, woken).(external := true)
    case Dispose => s.(queue := Disposed(s.queue), workers := WakeAll(s.workers))
  }

  // ---------- sums ----------

  /** What is summed up: nodes equal to `x`, all nodes, workers by what they do. */
  datatype Metric = NodesEqual(x: Task) | AllNodes | ReadyWorkers | RunningWorkers | WorkersRunning(x: Task)

  ghost function Own(t: Task, m: Metric): nat
  {
    match m
    case NodesEqual(x) => if t == x then 1 else 0
    case AllNodes => 1
    case _ => 0
  }

  /** Over all nodes of a tree of tasks. */
  ghost function TreeSum(t: Task, m: Metric): nat
    decreases t, 1
  {
    Own(t, m) + TasksSum(t.posts, m)
  }

  ghost function TasksSum(ts: seq<Task>, m: Metric): nat
    decreases ts, 0
  {
    if ts == [] then 0 else TreeSum(ts[0], m) + TasksSum(ts[1..], m)
  }

  ghost function WorkerValue(w: Worker, m: Metric): nat
  {
    match m
    case NodesEqual(_) => if w.Running? then Own(w.task, m) + TasksSum(w.todo, m) else 0
    case AllNodes => if w.Running? then Own(w.task, m) + TasksSum(w.todo, m) else 0
    case ReadyWorkers => if w.Ready? then 1 else 0
    case RunningWorkers => if w.Running? then 1 else 0
    case WorkersRunning(x) => if w.Running? && w.task == x then 1 else 0
  }

  ghost function WorkersSum(ws: seq<Worker>, m: Metric): nat
  {
    if ws == [] then 0 else WorkerValue(ws[0], m) + WorkersSum(ws[1..], m)
  }

  ghost function MainSum(main: Main, m: Metric): nat
  {
    if main.Batch? then
      TasksSum(main.rest, m)
      + if main.current.Some? then Own(main.current.value.0, m) + TasksSum(main.current.value.1, m) else 0
    else 0
  }

  lemma {:induction false} WorkersSumUpdate(ws: seq<Worker>, i: nat, w: Worker, m: Metric)
    requires i < |ws|
    ensures WorkersSum(ws[i := w], m) + WorkerValue(ws[i], m) == WorkersSum(ws, m) + WorkerValue(w, m)
  {
    if i == 0 {
      assert ws[0 := w][1..] == ws[1..];
    } else {
      assert ws[i := w][1..] == ws[1..][i - 1 := w];
      WorkersSumUpdate(ws[1..], i - 1, w, m);
    }
  }

  lemma {:induction false} WorkersSumAtLeast(ws: seq<Worker>, i: nat, m: Metric)
    requires i < |ws|
    ensures WorkersSum(ws, m) >= WorkerValue(ws[i], m)
  {
    if i > 0 { WorkersSumAtLeast(ws[1..], i - 1, m); }
  }

  lemma {:induction false} WorkersSumPositive(ws: seq<Worker>, m: Metric) returns (i: nat)
    requires WorkersSum(ws, m) > 0
    ensures i < |ws| && WorkerValue(ws[i], m) > 0
  {
    if WorkerValue(ws[0], m) > 0 {
      i := 0;
    } else {
      i := WorkersSumPositive(ws[1..], m);
      i := i + 1;
    }
  }

  lemma {:induction false} WakeAllSums(ws: seq<Worker>, m: Metric)
    ensures m.ReadyWorkers? || WorkersSum(WakeAll(ws), m) == WorkersSum(ws, m)
  {
    if ws != [] { WakeAllSums(ws[1..], m); }
  }

  lemma {:induction false} TasksSumAppend(ts: seq<Task>, t: Task, m: Metric)
    ensures TasksSum(ts + [t], m) == TasksSum(ts, m) + TreeSum(t, m)
  {
    if ts == [] {
      assert ts + [t] == [t] && [t][1..] == [];
    } else {
      TasksSumAppend(ts[1..], t, m);
      assert (ts + [t])[1..] == ts[1..] + [t];
    }
  }

  // ---------- the pool ----------

  ghost function Awake(s: State): nat { WorkersSum(s.workers, ReadyWorkers) }
  ghost function Busy(s: State): nat { WorkersSum(s.workers, RunningWorkers) }

  /** What every step keeps about the queue, the workers and the waiting main thread. */
  ghost predicate PoolInv(s: State)
  {
    // the counter counts queued and running tasks
    && s.queue.outstanding == |s.queue.tasks| + Busy(s)
    // tasks are taken in the order they were pushed
    && s.pushed == s.taken + s.queue.tasks
    // no wakeup is lost
    && (SomeoneSleeps(s.workers) ==> |s.queue.tasks| <= Awake(s) && !s.queue.disposed)
    && (s.main.Blocked? ==> s.queue.outstanding > 0)
    && (forall k :: 0 <= k < |s.workers| && s.workers[k].Exited? ==> s.queue.disposed)
  }

  lemma WorkerStep(s: State, w: nat, to: Worker)
    requires w < |s.workers|
    ensures var s' := s.(workers := s.workers[w := to]);
      && Awake(s') + WorkerValue(s.workers[w], ReadyWorkers) == Awake(s) + WorkerValue(to, ReadyWorkers)
      && Busy(s') + WorkerValue(s.workers[w], RunningWorkers) == Busy(s) + WorkerValue(to, RunningWorkers)
  {
    WorkersSumUpdate(s.workers, w, to, ReadyWorkers);
    WorkersSumUpdate(s.workers, w, to, RunningWorkers);
  }

  lemma PushKeepsPool(s: State, t: Task, woken: Option<nat>)
    requires PoolInv(s) && IsWoken(s.workers, woken)
    ensures PoolInv(PushTask(s, t, woken))
  {
    if woken.Some? { WorkerStep(s, woken.value, Ready); }
  }

  lemma TakeKeepsPool(s: State, w: nat)
    requires PoolInv(s) && Enabled(s, Take(w))
    ensures PoolInv(Next(s, Take(w)))
  {
    if s.queue.disposed {
      WorkerStep(s, w, Exited);
    } else {
      WorkerStep(s, w, Running(s.queue.tasks[0], s.queue.tasks[0].posts));
    }
  }

  lemma WorkerPostKeepsPool(s: State, w: nat, woken: Option<nat>)
    requires PoolInv(s) && Enabled(s, WorkerPost(w, woken))
    ensures PoolInv(Next(s, WorkerPost(w, woken)))
  {
    var Running(t, todo) := s.workers[w];
    var s1 := s.(workers := s.workers[w := Running(t, todo[1..])]);
    WorkerStep(s, w, Running(t, todo[1..]));
    assert SomeoneSleeps(s1.workers) ==> SomeoneSleeps(s.workers);
    match woken {
      case None => assert IsWoken(s1.workers, woken);
      case Some(k) => assert s1.workers[k] == s.workers[k];
    }
    if todo[0].toWorkers { PushKeepsPool(s1, todo[0], woken); }
  }

  lemma MainPostKeepsPool(s: State, woken: Option<nat>)
    requires PoolInv(s) && Enabled(s, MainPost(woken))
    ensures PoolInv(Next(s, MainPost(woken)))
  {
    var (t, todo) := s.main.current.value;
    var s1 := s.(main := Batch(Some((t, todo[1..])), s.main.rest));
    if todo[0].toWorkers { PushKeepsPool(s1, todo[0], woken); }
  }

  lemma FinishKeepsPool(s: State, w: nat)
    requires PoolInv(s) && Enabled(s, Finish(w))
    ensures PoolInv(Next(s, Finish(w)))
  {
    WorkerStep(s, w, Ready);
    WorkersSumAtLeast(s.workers, w, RunningWorkers);
  }

  lemma AwakeningKeepsPool(s: State, w: nat, to: Worker)
    requires PoolInv(s) && w < |s.workers|
    requires (s.workers[w].Ready? && !MayPass(s.queue) && to == Asleep) || (s.workers[w].Asleep? && to == Ready)
    ensures PoolInv(s.(workers := s.workers[w := to]))
  {
    WorkerStep(s, w, to);
  }

  lemma DisposeKeepsPool(s: State)
    requires PoolInv(s)
    ensures PoolInv(Next(s, Dispose))
  {
    WakeAllSums(s.workers, RunningWorkers);
  }

  /** The pool invariant holds whatever step is taken, by whichever thread. */
  lemma PoolStep(s: State, e: Event)
    requires PoolInv(s) && Enabled(s, e)
    ensures PoolInv(Next(s, e))
  {
    match e
    case Take(w) => TakeKeepsPool(s, w);
    case Sleep(w) => AwakeningKeepsPool(s, w, Asleep);
    case WorkerPost(w, woken) => WorkerPostKeepsPool(s, w, woken);
    case Finish(w) => FinishKeepsPool(s, w);
    case MainPost(woken) => MainPostKeepsPool(s, woken);
    case WakeSpuriously(w) => AwakeningKeepsPool(s, w, Ready);
    case ExternalPush(t, woken) => PushKeepsPool(s, t, woken);
    case Dispose => DisposeKeepsPool(s);
    case _ =>
  }

  // ---------- what has been run ----------

  /** The tasks the main thread has in hand. */
  ghost function InHand(main: Main): seq<Task>
  {
    if main.Batch? then (if main.current.Some? then [main.current.value.0] else []) + main.rest else []
  }

  /** Foreground tasks are run in the order of posting. */
  ghost predicate ForegroundInv(s: State) { s.posted == s.ran + InHand(s.main) + s.foreground.tasks }

  ghost predicate HistoryInv(s: State) { (forall x :: TakenInv(s, x)) && ForegroundInv(s) }

  /** Between WaitDrain and the end, nothing is queued and nobody works, unless someone else pushes. */
  ghost predicate QuietInv(s: State)
  {
    && (!s.external && (s.main.Drained? || s.main.Done?) ==> s.queue.outstanding == 0)
    && (s.main.Done? && !s.external ==> s.foreground.tasks == [])
  }

  ghost predicate AllTo(ts: seq<Task>, toWorkers: bool)
  {
    forall k :: 0 <= k < |ts| ==> ts[k].toWorkers == toWorkers
  }

  /** Every task goes where it is meant to go. */
  ghost predicate RouteInv(s: State) { AllTo(s.pushed, true) && AllTo(s.posted, false) }

  /** The children a running task still has to post are the last ones. */
  ghost predicate IsRest(todo: seq<Task>, t: Task)
  {
    |todo| <= |t.posts| && todo == t.posts[|t.posts| - |todo|..]
  }

  ghost predicate TodoInv(s: State) { WorkersTodo(s.workers) && MainTodo(s.main) }

  ghost predicate WorkersTodo(ws: seq<Worker>)
  {
    forall w :: 0 <= w < |ws| && ws[w].Running? ==> IsRest(ws[w].todo, ws[w].task)
  }

  ghost predicate MainTodo(main: Main)
  {
    main.Batch? && main.current.Some? ==> IsRest(main.current.value.1, main.current.value.0)
  }

  ghost predicate Inv(s: State) { PoolInv(s) && HistoryInv(s) && QuietInv(s) && RouteInv(s) && TodoInv(s) }

  lemma WakeKeepsRunning(ws: seq<Worker>, woken: Option<nat>, m: Metric)
    requires IsWoken(ws, woken) && !m.ReadyWorkers?
    ensures WorkersSum(Wake(ws, woken), m) == WorkersSum(ws, m)
  {
    if woken.Some? { WorkersSumUpdate(ws, woken.value, Ready, m); }
  }

  /** Every task taken is being run or has finished. */
  ghost predicate TakenInv(s: State, x: Task)
  {
    multiset(s.taken)[x] == s.finished[x] + WorkersSum(s.workers, WorkersRunning(x))
  }

  lemma TakeKeepsTaken(s: State, w: nat, x: Task)
    requires Enabled(s, Take(w)) && TakenInv(s, x)
    ensures TakenInv(Next(s, Take(w)), x)
  {
    WorkersSumUpdate(s.workers, w, Next(s, Take(w)).workers[w], WorkersRunning(x));
  }

  lemma WorkerPostKeepsTaken(s: State, w: nat, woken: Option<nat>, x: Task)
    requires Enabled(s, WorkerPost(w, woken)) && TakenInv(s, x)
    ensures TakenInv(Next(s, WorkerPost(w, woken)), x)
  {
    var to := Running(s.workers[w].task, s.workers[w].todo[1..]);
    WorkersSumUpdate(s.workers, w, to, WorkersRunning(x));
    IsWokenAfterPost(s.workers, w, to, woken);
    WakeKeepsRunning(s.workers[w := to], woken, WorkersRunning(x));
  }

  lemma TakenStep(s: State, e: Event, x: Task)
    requires Enabled(s, e) && TakenInv(s, x)
    ensures TakenInv(Next(s, e), x)
  {
    match e
    case Take(w) => TakeKeepsTaken(s, w, x);
    case Sleep(w) => WorkersSumUpdate(s.workers, w, Asleep, WorkersRunning(x));
    case WorkerPost(w, woken) => WorkerPostKeepsTaken(s, w, woken, x);
    case Finish(w) => WorkersSumUpdate(s.workers, w, Ready, WorkersRunning(x));
    case MainPost(woken) => WakeKeepsRunning(s.workers, woken, WorkersRunning(x));
    case WakeSpuriously(w) => WorkersSumUpdate(s.workers, w, Ready, WorkersRunning(x));
    case ExternalPush(t, woken) => WakeKeepsRunning(s.workers, woken, WorkersRunning(x));
    case Dispose => WakeAllSums(s.workers, WorkersRunning(x));
    case _ =>
  }

  lemma IsWokenAfterPost(ws: seq<Worker>, w: nat, to: Worker, woken: Option<nat>)
    requires w < |ws| && ws[w].Running? && to.Running? && IsWoken(ws, woken)
    ensures IsWoken(ws[w := to], woken)
  {
    assert SomeoneSleeps(ws[w := to]) ==> SomeoneSleeps(ws);
  }

  lemma PostKeepsForeground(s: State, t: Task, woken: Option<nat>)
    requires ForegroundInv(s)
    ensures ForegroundInv(Post(s, t, woken))
  {
    assert s.ran + InHand(s.main) + (s.foreground.tasks + [t]) == s.ran + InHand(s.main) + s.foreground.tasks + [t];
  }

  lemma ForegroundStep(s: State, e: Event)
    requires Enabled(s, e) && ForegroundInv(s)
    ensures ForegroundInv(Next(s, e))
  {
    match e
    case WorkerPost(w, woken) =>
      var Running(t, todo) := s.workers[w];
      PostKeepsForeground(s.(workers := s.workers[w := Running(t, todo[1..])]), todo[0], woken);
    case MainPost(woken) =>
      var (t, todo) := s.main.current.value;
      PostKeepsForeground(s.(main := Batch(Some((t, todo[1..])), s.main.rest)), todo[0], woken);
    case PopForeground =>
      if s.foreground.tasks != [] { assert s.ran + [] + s.foreground.tasks == s.ran + ([] + s.foreground.tasks) + []; }
    case RunNext =>
      if s.main.rest != [] { assert [s.main.rest[0]] + s.main.rest[1..] == [] + s.main.rest; }
    case MainFinish =>
      var done := [s.main.current.value.0];
      assert s.ran + done + ([] + s.main.rest) == s.ran + (done + s.main.rest);
    case _ =>
  }

  lemma HistoryStep(s: State, e: Event)
    requires HistoryInv(s) && Enabled(s, e)
    ensures HistoryInv(Next(s, e))
  {
    forall x ensures TakenInv(Next(s, e), x) { TakenStep(s, e, x); }
    ForegroundStep(s, e);
  }

  lemma QuietStep(s: State, e: Event)
    requires PoolInv(s) && QuietInv(s) && Enabled(s, e)
    ensures QuietInv(Next(s, e))
  {
    match e
    case WorkerPost(w, _) => WorkersSumAtLeast(s.workers, w, RunningWorkers);
    case Finish(w) => WorkersSumAtLeast(s.workers, w, RunningWorkers);
    case _ =>
  }

  lemma RouteStep(s: State, e: Event)
    requires RouteInv(s) && Enabled(s, e)
    ensures RouteInv(Next(s, e))
  {
  }

  lemma RestOfRest(todo: seq<Task>, t: Task)
    requires IsRest(todo, t) && todo != []
    ensures IsRest(todo[1..], t) && todo[0] == t.posts[|t.posts| - |todo|]
  {
  }

  lemma TodoStep(s: State, e: Event)
    requires TodoInv(s) && Enabled(s, e)
    ensures TodoInv(Next(s, e))
  {
    WorkersTodoStep(s, e);
    MainTodoStep(s, e);
    hide Next, Enabled, WorkersTodo, MainTodo;
  }

  lemma WorkersTodoStep(s: State, e: Event)
    requires WorkersTodo(s.workers) && Enabled(s, e)
    ensures WorkersTodo(Next(s, e).workers)
  {
    hide IsRest;
    match e
    case Take(w) => if !s.queue.disposed { AllIsRest(s.queue.tasks[0]); }
    case WorkerPost(w, _) => RestOfRest(s.workers[w].todo, s.workers[w].task);
    case _ =>
  }

  lemma MainTodoStep(s: State, e: Event)
    requires MainTodo(s.main) && Enabled(s, e)
    ensures MainTodo(Next(s, e).main)
  {
    hide IsRest;
    match e
    case MainPost(_) => RestOfRest(s.main.current.value.1, s.main.current.value.0);
    case RunNext => if s.main.rest != [] { AllIsRest(s.main.rest[0]); }
    case _ =>
  }

  lemma AllIsRest(t: Task)
    ensures IsRest(t.posts, t)
  {
  }

  /** All invariants hold in every reachable state of every interleaving. */
  lemma Step(s: State, e: Event)
    requires Inv(s) && Enabled(s, e)
    ensures Inv(Next(s, e))
  {
    hide PoolInv, HistoryInv, QuietInv, RouteInv, TodoInv, Enabled, Next;
    PoolStep(s, e);
    HistoryStep(s, e);
    QuietStep(s, e);
    RouteStep(s, e);
    TodoStep(s, e);
  }

  /** Tasks for the workers are queued, taken and finished there only, and all others on the main thread only. */
  lemma RunsWhereItShould(s: State)
    requires Inv(s)
    ensures AllTo(s.queue.tasks, true) && AllTo(s.taken, true) && forall t :: t in s.finished ==> t.toWorkers
    ensures forall w :: 0 <= w < |s.workers| && s.workers[w].Running? ==> s.workers[w].task.toWorkers
    ensures AllTo(s.foreground.tasks, false) && AllTo(s.ran, false) && AllTo(InHand(s.main), false)
  {
    PartsTo(s.taken, s.queue.tasks, [], true);
    assert s.taken + s.queue.tasks + [] == s.pushed;
    PartsTo(s.ran, InHand(s.main), s.foreground.tasks, false);
    forall t | t in s.finished ensures t.toWorkers {
      assert TakenInv(s, t);
      assert t in multiset(s.taken) && t in s.taken;
    }
    forall w | 0 <= w < |s.workers| && s.workers[w].Running? ensures s.workers[w].task.toWorkers {
      var t := s.workers[w].task;
      assert TakenInv(s, t);
      WorkersSumAtLeast(s.workers, w, WorkersRunning(t));
      assert t in multiset(s.taken) && t in s.taken;
    }
  }

  lemma PartsTo(a: seq<Task>, b: seq<Task>, c: seq<Task>, toWorkers: bool)
    requires AllTo(a + b + c, toWorkers)
    ensures AllTo(a, toWorkers) && AllTo(b, toWorkers) && AllTo(c, toWorkers)
  {
    forall k | 0 <= k < |a| ensures a[k].toWorkers == toWorkers { assert (a + b + c)[k] == a[k]; }
    forall k | 0 <= k < |b| ensures b[k].toWorkers == toWorkers { assert (a + b + c)[|a| + k] == b[k]; }
    forall k | 0 <= k < |c| ensures c[k].toWorkers == toWorkers { assert (a + b + c)[|a| + |b| + k] == c[k]; }
  }

  // ---------- runs ----------

  ghost predicate IsRun(states: seq<State>, events: seq<Event>)
  {
    && |states| == |events| + 1
    && forall i :: 0 <= i < |events| ==> Enabled(states[i], events[i]) && states[i + 1] == Next(states[i], events[i])
  }

  lemma {:induction false} RunKeepsInv(states: seq<State>, events: seq<Event>, i: nat)
    requires IsRun(states, events) && Inv(states[0]) && i < |states|
    ensures Inv(states[i])
  {
    if i > 0 {
      RunKeepsInv(states, events, i - 1);
      Step(states[i - 1], events[i - 1]);
    }
  }

  /** The state when a pool of `n` workers has started and some tasks have been posted. */
  ghost predicate IsStart(s: State)
  {
    && s.queue.outstanding == |s.queue.tasks| && !s.queue.disposed && s.main.Checking? && !s.external
    && (forall k :: 0 <= k < |s.workers| ==> s.workers[k].Ready?)
    && s.pushed == s.queue.tasks && s.taken == [] && s.finished == multiset{}
    && s.posted == s.foreground.tasks && s.ran == []
    && AllTo(s.queue.tasks, true) && AllTo(s.foreground.tasks, false)
  }

  lemma {:induction false} NoneRunning(ws: seq<Worker>, m: Metric)
    requires forall k :: 0 <= k < |ws| ==> !ws[k].Running?
    requires !m.ReadyWorkers?
    ensures WorkersSum(ws, m) == 0
  {
    if ws != [] { NoneRunning(ws[1..], m); }
  }

  lemma StartIsInv(s: State)
    requires IsStart(s)
    ensures Inv(s)
  {
    NoneRunning(s.workers, RunningWorkers);
    forall x ensures TakenInv(s, x) { NoneRunning(s.workers, WorkersRunning(x)); }
    assert s.ran + InHand(s.main) + s.foreground.tasks == s.foreground.tasks;
  }

  /** The task that a step sends to one of the queues: the next child of a running task, or one from outside. */
  ghost function SentBy(s: State, e: Event): Option<Task>
    requires TodoInv(s) && Enabled(s, e)
  {
    match e
    case WorkerPost(w, _) => var Running(t, todo) := s.workers[w]; Some(t.posts[|t.posts| - |todo|])
    case MainPost(_) => var (t, todo) := s.main.current.value; Some(t.posts[|t.posts| - |todo|])
    case ExternalPush(t, _) => Some(t)
    case _ => None
  }

  /** What has been sent to the workers, or to the foreground, in the first `i` steps of a run. */
  ghost function Sent(states: seq<State>, events: seq<Event>, i: nat, toWorkers: bool): seq<Task>
    requires IsRun(states, events) && Inv(states[0]) && i < |states|
  {
    if i == 0 then []
    else
      RunKeepsInv(states, events, i - 1);
      var t := SentBy(states[i - 1], events[i - 1]);
      Sent(states, events, i - 1, toWorkers) + if t.Some? && t.value.toWorkers == toWorkers then [t.value] else []
  }

  lemma SentStep(s: State, e: Event)
    requires TodoInv(s) && Enabled(s, e)
    ensures var (t, s') := (SentBy(s, e), Next(s, e));
      && s'.pushed == s.pushed + (if t.Some? && t.value.toWorkers then [t.value] else [])
      && s'.posted == s.posted + (if t.Some? && !t.value.toWorkers then [t.value] else [])
  {
    match e
    case WorkerPost(w, _) => RestOfRest(s.workers[w].todo, s.workers[w].task);
    case MainPost(_) => RestOfRest(s.main.current.value.1, s.main.current.value.0);
    case _ =>
  }

  /** Nothing is dropped: each queue has got exactly the tasks sent to it, children in the order of their parent. */
  lemma {:induction false} RunSends(states: seq<State>, events: seq<Event>, i: nat)
    requires IsRun(states, events) && Inv(states[0]) && i < |states|
    ensures states[i].pushed == states[0].pushed + Sent(states, events, i, true)
    ensures states[i].posted == states[0].posted + Sent(states, events, i, false)
  {
    if i == 0 {
      assert states[0].pushed + [] == states[0].pushed && states[0].posted + [] == states[0].posted;
    } else {
      RunSends(states, events, i - 1);
      RunKeepsInv(states, events, i - 1);
      RunStep(states, events, i - 1);
      hide IsRun, Enabled, Next, Inv;
      SentAppends(states[i - 1], events[i - 1], states[0].pushed, states[0].posted,
        Sent(states, events, i - 1, true), Sent(states, events, i - 1, false));
    }
  }

  lemma SentAppends(s: State, e: Event, pushed: seq<Task>, posted: seq<Task>, before: seq<Task>, before': seq<Task>)
    requires TodoInv(s) && Enabled(s, e) && s.pushed == pushed + before && s.posted == posted + before'
    ensures var (t, s') := (SentBy(s, e), Next(s, e));
      && s'.pushed == pushed + (before + (if t.Some? && t.value.toWorkers == true then [t.value] else []))
      && s'.posted == posted + (before' + (if t.Some? && t.value.toWorkers == false then [t.value] else []))
  {
    hide Next, Enabled, TodoInv, SentBy;
    SentStep(s, e);
  }

  /** From the disposal of the queue on, no worker takes anything. */
  lemma {:induction false} NothingTakenAfterDispose(states: seq<State>, events: seq<Event>, i: nat, j: nat)
    requires IsRun(states, events) && i <= j < |states| && states[i].queue.disposed
    ensures states[j].queue.disposed && states[j].taken == states[i].taken
    decreases j - i
  {
    if i < j { NothingTakenAfterDispose(states, events, i, j - 1); }
  }

  /**
    WaitDrain: at the step that leaves it, every task pushed up to then has been taken in order and
    has finished, exactly once.
   */
  lemma WaitDrainWaitsForAll(s: State)
    requires Inv(s) && Enabled(s, Check) && Next(s, Check).main.Drained?
    ensures s.taken == s.pushed && multiset(s.pushed) == s.finished
    ensures forall k :: 0 <= k < |s.workers| ==> !s.workers[k].Running?
  {
    forall k | 0 <= k < |s.workers| ensures !s.workers[k].Running? { WorkersSumAtLeast(s.workers, k, RunningWorkers); }
    assert s.taken + [] == s.taken;
    forall x ensures multiset(s.taken)[x] == s.finished[x] {
      assert TakenInv(s, x);
      NoneRunning(s.workers, WorkersRunning(x));
    }
  }

  /** A sleeping worker never leaves a task behind: for every queued task, some worker is awake. */
  lemma NoLostWakeup(s: State)
    requires Inv(s) && SomeoneSleeps(s.workers) && s.queue.tasks != []
    ensures exists w :: 0 <= w < |s.workers| && Enabled(s, Take(w))
  {
    var w := WorkersSumPositive(s.workers, ReadyWorkers);
    assert Enabled(s, Take(w));
  }

  // ---------- draining ----------

  /** All nodes that still have to finish. */
  ghost function Pending(s: State, m: Metric): nat
  {
    TasksSum(s.queue.tasks, m) + WorkersSum(s.workers, m) + TasksSum(s.foreground.tasks, m) + MainSum(s.main, m)
  }

  /** How often `x` has finished, on a worker or on the main thread. */
  ghost function FinishedCount(s: State, x: Task): nat { s.finished[x] + multiset(s.ran)[x] }

  ghost predicate IsTreeMetric(m: Metric) { m.NodesEqual? || m.AllNodes? }

  /** Steps that belong to the drain itself. */
  ghost predicate IsDrainStep(e: Event) { !e.ExternalPush? && !e.Dispose? }

  /** A step moves nodes around; only finishing takes one off. */
  ghost function FinishedBy(s: State, e: Event, m: Metric): nat
    requires Enabled(s, e)
  {
    match e
    case Finish(w) => Own(s.workers[w].task, m)
    case MainFinish => Own(s.main.current.value.0, m)
    case _ => 0
  }

  lemma PostKeepsPending(s: State, t: Task, woken: Option<nat>, m: Metric)
    requires IsTreeMetric(m) && IsWoken(s.workers, woken)
    ensures Pending(Post(s, t, woken), m) == Pending(s, m) + TreeSum(t, m)
  {
    WakeKeepsRunning(s.workers, woken, m);
    TasksSumAppend(s.queue.tasks, t, m);
    TasksSumAppend(s.foreground.tasks, t, m);
  }

  lemma TakeKeepsPending(s: State, w: nat, m: Metric)
    requires Enabled(s, Take(w)) && IsTreeMetric(m) && !s.queue.disposed
    ensures Pending(Next(s, Take(w)), m) == Pending(s, m)
  {
    var t := s.queue.tasks[0];
    WorkersSumUpdate(s.workers, w, Running(t, t.posts), m);
    assert TasksSum(s.queue.tasks, m) == TreeSum(t, m) + TasksSum(s.queue.tasks[1..], m);
    assert TreeSum(t, m) == WorkerValue(Running(t, t.posts), m);
  }

  lemma WorkerPostKeepsPending(s: State, w: nat, woken: Option<nat>, m: Metric)
    requires Enabled(s, WorkerPost(w, woken)) && IsTreeMetric(m)
    ensures Pending(Next(s, WorkerPost(w, woken)), m) == Pending(s, m)
  {
    var Running(t, todo) := s.workers[w];
    var to := Running(t, todo[1..]);
    WorkersSumUpdate(s.workers, w, to, m);
    IsWokenAfterPost(s.workers, w, to, woken);
    PostKeepsPending(s.(workers := s.workers[w := to]), todo[0], woken, m);
    assert TasksSum(todo, m) == TreeSum(todo[0], m) + TasksSum(todo[1..], m);
    hide TasksSum, TreeSum, WorkersSum, Post;
  }

  lemma MainPostKeepsPending(s: State, woken: Option<nat>, m: Metric)
    requires Enabled(s, MainPost(woken)) && IsTreeMetric(m)
    ensures Pending(Next(s, MainPost(woken)), m) == Pending(s, m)
  {
    var (t, todo) := s.main.current.value;
    PostKeepsPending(s.(main := Batch(Some((t, todo[1..])), s.main.rest)), todo[0], woken, m);
    assert TasksSum(todo, m) == TreeSum(todo[0], m) + TasksSum(todo[1..], m);
    hide TasksSum, TreeSum, WorkersSum, Post;
  }

  lemma MainKeepsPending(s: State, e: Event, m: Metric)
    requires Enabled(s, e) && IsTreeMetric(m) && (e.Check? || e.PopForeground? || e.RunNext? || e.MainFinish?)
    ensures Pending(Next(s, e), m) + FinishedBy(s, e, m) == Pending(s, m)
  {
    hide WorkersSum;
    match e
    case RunNext => if s.main.rest != [] { assert MainSum(s.main, m) == TreeSum(s.main.rest[0], m) + TasksSum(s.main.rest[1..], m); }
    case MainFinish => assert TasksSum(s.main.current.value.1, m) == 0;
    case _ =>
  }

  lemma PendingStep(s: State, e: Event, m: Metric)
    requires PoolInv(s) && Enabled(s, e) && IsTreeMetric(m) && IsDrainStep(e) && !s.queue.disposed
    ensures Pending(Next(s, e), m) + FinishedBy(s, e, m) == Pending(s, m)
  {
    hide PoolInv, TasksSum, WorkersSum;
    match e
    case Take(w) => TakeKeepsPending(s, w, m);
    case Sleep(w) => WorkersSumUpdate(s.workers, w, Asleep, m);
    case WorkerPost(w, woken) => WorkerPostKeepsPending(s, w, woken, m);
    case Finish(w) => FinishTakesOff(s, w, m);
    case MainPost(woken) => MainPostKeepsPending(s, woken, m);
    case WakeSpuriously(w) => WorkersSumUpdate(s.workers, w, Ready, m);
    case UnblockSpuriously =>
    case _ => MainKeepsPending(s, e, m);
  }

  lemma FinishTakesOff(s: State, w: nat, m: Metric)
    requires Enabled(s, Finish(w)) && IsTreeMetric(m)
    ensures Pending(Next(s, Finish(w)), m) + Own(s.workers[w].task, m) == Pending(s, m)
  {
    WorkersSumUpdate(s.workers, w, Ready, m);
    assert TasksSum(s.workers[w].todo, m) == 0;
  }

  lemma ConservedStep(s: State, e: Event, x: Task)
    requires PoolInv(s) && Enabled(s, e) && IsDrainStep(e) && !s.queue.disposed
    ensures FinishedCount(Next(s, e), x) + Pending(Next(s, e), NodesEqual(x)) == FinishedCount(s, x) + Pending(s, NodesEqual(x))
  {
    hide PoolInv, Pending;
    PendingStep(s, e, NodesEqual(x));
  }

  lemma FinishedWhere(s: State, x: Task)
    requires Inv(s)
    ensures (if x.toWorkers then multiset(s.ran)[x] else s.finished[x]) == 0
    ensures FinishedCount(s, x) == if x.toWorkers then s.finished[x] else multiset(s.ran)[x]
  {
    RunsWhereItShould(s);
    hide Inv;
    if x.toWorkers { assert x !in s.ran; }
  }

  lemma FlagsStep(s: State, e: Event)
    requires Enabled(s, e) && IsDrainStep(e)
    ensures Next(s, e).queue.disposed == s.queue.disposed && Next(s, e).external == s.external
  {
  }

  lemma RunStep(states: seq<State>, events: seq<Event>, i: nat)
    requires IsRun(states, events) && i < |events|
    ensures i + 1 < |states| && Enabled(states[i], events[i]) && states[i + 1] == Next(states[i], events[i])
  {
  }

  lemma {:induction false} RunConserves(states: seq<State>, events: seq<Event>, i: nat, x: Task)
    requires IsRun(states, events) && Inv(states[0]) && i < |states|
    requires !states[0].queue.disposed && !states[0].external && forall k :: 0 <= k < |events| ==> IsDrainStep(events[k])
    ensures !states[i].queue.disposed && !states[i].external
    ensures FinishedCount(states[i], x) + Pending(states[i], NodesEqual(x))
      == FinishedCount(states[0], x) + Pending(states[0], NodesEqual(x))
  {
    if i > 0 {
      RunConserves(states, events, i - 1, x);
      RunKeepsInv(states, events, i - 1);
      RunStep(states, events, i - 1);
      hide FinishedCount, Pending, Enabled, Next;
      FlagsStep(states[i - 1], events[i - 1]);
      ConservedStep(states[i - 1], events[i - 1], x);
    }
  }

  /**
    Drain quiescence: when DrainTasks returns, both queues are empty and nobody is working, and
    every node of every task tree there was has been run, exactly as often as it occurs: those for
    the workers by workers, all others on the main thread.
   */
  lemma DrainIsComplete(states: seq<State>, events: seq<Event>)
    requires IsRun(states, events) && Inv(states[0])
    requires !states[0].queue.disposed && !states[0].external && forall k :: 0 <= k < |events| ==> IsDrainStep(events[k])
    requires states[|events|].main.Done?
    ensures var s := states[|events|];
      && s.queue.tasks == [] && s.foreground.tasks == []
      && (forall k :: 0 <= k < |s.workers| ==> !s.workers[k].Running?)
    ensures var s := states[|events|]; forall x: Task ::
      var n := FinishedCount(states[0], x) + Pending(states[0], NodesEqual(x));
      if x.toWorkers then s.finished[x] == n && multiset(s.ran)[x] == 0 else multiset(s.ran)[x] == n && s.finished[x] == 0
  {
    var s := states[|events|];
    RunKeepsInv(states, events, |events|);
    forall x: Task
      ensures FinishedCount(s, x) == if x.toWorkers then s.finished[x] else multiset(s.ran)[x]
      ensures (if x.toWorkers then multiset(s.ran)[x] else s.finished[x]) == 0
    {
      FinishedWhere(s, x);
    }
    forall x
      ensures s.queue.tasks == [] && s.foreground.tasks == []
      ensures FinishedCount(s, x) == FinishedCount(states[0], x) + Pending(states[0], NodesEqual(x))
    {
      RunConserves(states, events, |events|, x);
      forall k | 0 <= k < |s.workers| ensures !s.workers[k].Running? { WorkersSumAtLeast(s.workers, k, RunningWorkers); }
      NoneRunning(s.workers, NodesEqual(x));
    }
    var any := Task(0, true, []);
    RunConserves(states, events, |events|, any);
    forall k | 0 <= k < |s.workers| ensures !s.workers[k].Running? { WorkersSumAtLeast(s.workers, k, RunningWorkers); }
  }

  // ---------- termination ----------

  ghost function Rank(main: Main): nat
  {
    match main
    case Checking => 2
    case Blocked => 1
    case Drained => 1
    case Batch(current, rest) => 3
    case Done => 0
  }

  ghost function OneIf(b: bool): nat { if b then 1 else 0 }

  /** Decreases at every step of the drain other than a spurious wakeup. */
  ghost function Potential(s: State): int
  {
    9 * Pending(s, AllNodes)
    - 5 * |s.queue.tasks| - 6 * Busy(s) + Awake(s) - |s.foreground.tasks|
    - 5 * (if s.main.Batch? then |s.main.rest| else 0)
    - 6 * OneIf(s.main.Batch? && s.main.current.Some?)
    + Rank(s.main)
  }

  lemma {:induction false} NodesAtLeastTasks(ts: seq<Task>)
    ensures TasksSum(ts, AllNodes) >= |ts|
  {
    if ts != [] { NodesAtLeastTasks(ts[1..]); }
  }

  lemma {:induction false} NodesAtLeastWorkers(ws: seq<Worker>)
    ensures WorkersSum(ws, AllNodes) >= WorkersSum(ws, RunningWorkers)
  {
    if ws != [] { NodesAtLeastWorkers(ws[1..]); }
  }

  lemma PotentialIsBounded(s: State)
    ensures Potential(s) >= 0
  {
    NodesAtLeastTasks(s.queue.tasks);
    NodesAtLeastTasks(s.foreground.tasks);
    NodesAtLeastWorkers(s.workers);
    if s.main.Batch? { NodesAtLeastTasks(s.main.rest); }
  }

  ghost predicate IsProgress(e: Event) { IsDrainStep(e) && !e.WakeSpuriously? && !e.UnblockSpuriously? }

  lemma WakeCounts(s: State, t: Task, woken: Option<nat>)
    requires IsWoken(s.workers, woken)
    ensures Busy(Post(s, t, woken)) == Busy(s) && Awake(Post(s, t, woken)) <= Awake(s) + OneIf(t.toWorkers)
  {
    if woken.Some? { WorkerStep(s, woken.value, Ready); }
  }

  lemma WorkerStepCosts(s: State, e: Event)
    requires PoolInv(s) && Enabled(s, e) && !s.queue.disposed
    requires e.Take? || e.Sleep? || e.Finish? || e.WakeSpuriously?
    ensures Potential(Next(s, e)) <= Potential(s) + if e.WakeSpuriously? then 1 else -1
  {
    PendingStep(s, e, AllNodes);
    WorkerStep(s, e.w, Next(s, e).workers[e.w]);
  }

  lemma WorkerPostCosts(s: State, w: nat, woken: Option<nat>)
    requires PoolInv(s) && Enabled(s, WorkerPost(w, woken)) && !s.queue.disposed
    ensures Potential(Next(s, WorkerPost(w, woken))) < Potential(s)
  {
    PendingStep(s, WorkerPost(w, woken), AllNodes);
    var to := Running(s.workers[w].task, s.workers[w].todo[1..]);
    WorkerStep(s, w, to);
    IsWokenAfterPost(s.workers, w, to, woken);
    WakeCounts(s.(workers := s.workers[w := to]), s.workers[w].todo[0], woken);
  }

  lemma MainPostCosts(s: State, woken: Option<nat>)
    requires PoolInv(s) && Enabled(s, MainPost(woken)) && !s.queue.disposed
    ensures Potential(Next(s, MainPost(woken))) < Potential(s)
  {
    PendingStep(s, MainPost(woken), AllNodes);
    var (t, todo) := s.main.current.value;
    WakeCounts(s.(main := Batch(Some((t, todo[1..])), s.main.rest)), todo[0], woken);
  }

  lemma MainStepCosts(s: State, e: Event)
    requires PoolInv(s) && Enabled(s, e) && !s.queue.disposed
    requires e.Check? || e.PopForeground? || e.RunNext? || e.MainFinish? || e.UnblockSpuriously?
    ensures Potential(Next(s, e)) <= Potential(s) + if e.UnblockSpuriously? then 1 else -1
  {
    PendingStep(s, e, AllNodes);
  }

  /** Every step of the drain uses up potential; a spurious wakeup gives back at most one. */
  lemma PotentialStep(s: State, e: Event)
    requires PoolInv(s) && Enabled(s, e) && IsDrainStep(e) && !s.queue.disposed
    ensures Potential(Next(s, e)) <= Potential(s) + if IsProgress(e) then -1 else 1
  {
    match e
    case WorkerPost(w, woken) => WorkerPostCosts(s, w, woken);
    case MainPost(woken) => MainPostCosts(s, woken);
    case Take(_) => WorkerStepCosts(s, e);
    case Sleep(_) => WorkerStepCosts(s, e);
    case Finish(_) => WorkerStepCosts(s, e);
    case WakeSpuriously(_) => WorkerStepCosts(s, e);
    case _ => MainStepCosts(s, e);
  }

  /**
    The drain never gets stuck: as long as it is not over, some step that uses up potential can be
    taken. This needs that no wakeup is lost.
   */
  lemma NeverStuck(s: State) returns (e: Event)
    requires Inv(s) && !s.queue.disposed && !s.main.Done? && s.workers != []
    ensures Enabled(s, e) && IsProgress(e)
  {
    match s.main
    case Checking => e := Check;
    case Drained => e := PopForeground;
    case Batch(current, rest) =>
      if current.None? {
        e := RunNext;
      } else if current.value.1 == [] {
        e := MainFinish;
      } else {
        var woken := WhomToWake(s.workers);
        e := MainPost(woken);
      }
    case Blocked =>
      if Busy(s) > 0 {
        var w := WorkersSumPositive(s.workers, RunningWorkers);
        if s.workers[w].todo == [] {
          e := Finish(w);
        } else {
          var woken := WhomToWake(s.workers);
          e := WorkerPost(w, woken);
        }
      } else {
        var w;
        if SomeoneSleeps(s.workers) {
          w := WorkersSumPositive(s.workers, ReadyWorkers);
        } else {
          w := 0;
          WorkersSumAtLeast(s.workers, 0, RunningWorkers);
          assert !s.workers[0].Asleep?;
        }
        e := Take(w);
      }
  }

  lemma WhomToWake(ws: seq<Worker>) returns (woken: Option<nat>)
    ensures IsWoken(ws, woken)
  {
    if SomeoneSleeps(ws) {
      var k :| 0 <= k < |ws| && ws[k].Asleep?;
      woken := Some(k);
    } else {
      woken := None;
    }
  }

  /** How many steps are not spurious wakeups. */
  ghost function ProgressSteps(events: seq<Event>): nat
  {
    if events == [] then 0
    else ProgressSteps(events[..|events| - 1]) + OneIf(IsProgress(events[|events| - 1]))
  }

  /**
    Hence the drain ends: the steps it takes are bounded by the potential it starts with, plus one
    for every spurious wakeup.
   */
  lemma {:induction false} DrainTerminates(states: seq<State>, events: seq<Event>)
    requires IsRun(states, events) && Inv(states[0]) && !states[0].queue.disposed && !states[0].external
    requires forall k :: 0 <= k < |events| ==> IsDrainStep(events[k])
    ensures ProgressSteps(events) + Potential(states[|events|]) <= Potential(states[0]) + (|events| - ProgressSteps(events))
    ensures ProgressSteps(events) <= Potential(states[0]) + (|events| - ProgressSteps(events))
    decreases |events|
  {
    PotentialIsBounded(states[|events|]);
    if events != [] {
      var n := |events| - 1;
      RunKeepsInv(states, events, n);
      RunConserves(states, events, n, Task(0, true, []));
      PotentialStep(states[n], events[n]);
      assert IsRun(states[..n + 1], events[..n]);
      DrainTerminates(states[..n + 1], events[..n]);
    }
  }

  // ---------- one batch of foreground tasks ----------

  /** What the tasks post to the workers, or to the foreground queue, in order. */
  function PostsOf(ts: seq<Task>, toWorkers: bool): seq<Task>
  {
    if ts == [] then [] else PostsOf(ts[..|ts| - 1], toWorkers) + Selected(ts[|ts| - 1].posts, toWorkers)
  }

  function Selected(ts: seq<Task>, toWorkers: bool): seq<Task>
  {
    if ts == [] then []
    else Selected(ts[..|ts| - 1], toWorkers) + if ts[|ts| - 1].toWorkers == toWorkers then [ts[|ts| - 1]] else []
  }

  lemma {:induction false} SelectedOfSum(a: seq<Task>, b: seq<Task>, toWorkers: bool)
    ensures Selected(a + b, toWorkers) == Selected(a, toWorkers) + Selected(b, toWorkers)
    decreases |b|
  {
    if b == [] {
      assert a + b == a && Selected(a, toWorkers) + [] == Selected(a, toWorkers);
    } else {
      var front, last := b[..|b| - 1], b[|b| - 1];
      assert (a + b)[..|a + b| - 1] == a + front && (a + b)[|a + b| - 1] == last;
      SelectedOfSum(a, front, toWorkers);
      var one := if last.toWorkers == toWorkers then [last] else [];
      assert Selected(a, toWorkers) + Selected(front, toWorkers) + one == Selected(a, toWorkers) + (Selected(front, toWorkers) + one);
    }
  }

  /** The posts of tasks that run one after the other come in their order, each child where it says. */
  lemma {:induction false} PostsInOrder(a: seq<Task>, b: seq<Task>, child: Task)
    ensures PostsOf(a + b, child.toWorkers) == PostsOf(a, child.toWorkers) + PostsOf(b, child.toWorkers)
    ensures Selected([child], child.toWorkers) == [child] && Selected([child], !child.toWorkers) == []
    decreases |b|
  {
    var none: seq<Task> := [child][..0];
    assert none == [];
    if b == [] {
      assert a + b == a && PostsOf(a, child.toWorkers) + [] == PostsOf(a, child.toWorkers);
    } else {
      var front, last := b[..|b| - 1], b[|b| - 1];
      assert (a + b)[..|a + b| - 1] == a + front && (a + b)[|a + b| - 1] == last;
      PostsInOrder(a, front, child);
      var now := Selected(last.posts, child.toWorkers);
      assert PostsOf(a, child.toWorkers) + PostsOf(front, child.toWorkers) + now
        == PostsOf(a, child.toWorkers) + (PostsOf(front, child.toWorkers) + now);
    }
  }

  /**
    PerformForegroundTasks as the main thread runs it when no other thread gets in between: it takes
    everything there is, runs it in order, and leaves what the tasks have posted.
   */
  method PerformForegroundTasks(foreground: ConcurrentTaskQueue<Task>, workers: ConcurrentTaskQueue<Task>)
      returns (didWork: bool, ghost ran: seq<Task>)
    requires foreground != workers
    modifies foreground, workers
    ensures ran == old(foreground.taskQueue) && (didWork <==> ran != [])
    ensures foreground.taskQueue == PostsOf(ran, false)
    ensures workers.taskQueue == old(workers.taskQueue) + PostsOf(ran, true)
    ensures workers.outstandingTasks == old(workers.outstandingTasks) + |PostsOf(ran, true)|
  {
    var tasks := foreground.PopAll();
    didWork, ran := false, [];
    while tasks != []
      invariant ran + tasks == old(foreground.taskQueue) && (didWork <==> ran != [])
      invariant foreground.taskQueue == PostsOf(ran, false)
      invariant workers.taskQueue == old(workers.taskQueue) + PostsOf(ran, true)
      invariant workers.outstandingTasks == old(workers.outstandingTasks) + |PostsOf(ran, true)|
      decreases |tasks|
    {
      didWork := true;
      RunTask(tasks[0], foreground, workers);
      assert (ran + [tasks[0]])[..|ran|] == ran;
      ran, tasks := ran + [tasks[0]], tasks[1..];
    }
  }

  /** Running a task is posting its children. */
  method RunTask(task: Task, foreground: ConcurrentTaskQueue<Task>, workers: ConcurrentTaskQueue<Task>)
    requires foreground != workers
    modifies foreground, workers
    ensures foreground.taskQueue == old(foreground.taskQueue) + Selected(task.posts, false)
    ensures workers.taskQueue == old(workers.taskQueue) + Selected(task.posts, true)
    ensures workers.outstandingTasks == old(workers.outstandingTasks) + |Selected(task.posts, true)|
  {
    var posts := task.posts;
    for i := 0 to |posts|
      invariant foreground.taskQueue == old(foreground.taskQueue) + Selected(posts[..i], false)
      invariant workers.taskQueue == old(workers.taskQueue) + Selected(posts[..i], true)
      invariant workers.outstandingTasks == old(workers.outstandingTasks) + |Selected(posts[..i], true)|
    {
      assert posts[..i + 1][..i] == posts[..i];
      var n;
      if posts[i].toWorkers { n := workers.Push(posts[i]); } else { n := foreground.Push(posts[i]); }
    }
    assert posts[..|posts|] == posts;
  }
}
