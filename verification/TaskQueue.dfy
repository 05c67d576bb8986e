/**
  The concurrent task queue (src/Core/ConcurrentTaskQueue.h): what each operation does to the state
  under the lock, and whom it notifies.
 */
module TaskQueue {
  import opened Options

  /** The state guarded by the lock. */
  datatype Queue<T> = Queue(tasks: seq<T>, outstanding: int, disposed: bool)

  /** The threads an operation notifies: on the task condition, or on the drained condition. */
  datatype Notification = Nobody | OneConsumer | AllConsumers | AllDrainers

  function Pushed<T>(q: Queue<T>, t: T): Queue<T>
  {
    q.(tasks := q.tasks + [t], outstanding := q.outstanding + 1)
  }

  /** The condition a consumer waits for. */
  predicate MayPass<T>(q: Queue<T>) { q.disposed || q.tasks != [] }

  /** What a consumer leaves behind; popping does not lower the counter. */
  function Popped<T>(q: Queue<T>): Queue<T>
  {
    if q.tasks == [] then q else q.(tasks := q.tasks[1..])
  }

  /** Taking everything does not lower the counter either. */
  function Emptied<T>(q: Queue<T>): Queue<T> { q.(tasks := []) }

  function Disposed<T>(q: Queue<T>): Queue<T> { q.(disposed := true) }

  function Completed<T>(q: Queue<T>): Queue<T> { q.(outstanding := q.outstanding - 1) }

  class ConcurrentTaskQueue<T> {
    var taskQueue: seq<T>
    var outstandingTasks: int
    var disposed: bool

    ghost function State(): Queue<T>
      reads this
    {
      Queue(taskQueue, outstandingTasks, disposed)
    }

    constructor ()
      ensures State() == Queue([], 0, false)
    {
      taskQueue, outstandingTasks, disposed := [], 0, false;
    }

    method Push(value: T) returns (n: Notification)
      modifies this
      ensures State() == Pushed(old(State()), value) && n == OneConsumer
    {
      taskQueue := taskQueue + [value];
      outstandingTasks := outstandingTasks + 1;
      n := OneConsumer;
    }

    method Pop() returns (r: Option<T>)
      modifies this
      ensures State() == Popped(old(State()))
      ensures r == if old(taskQueue) == [] then None else Some(old(taskQueue)[0])
    {
      if taskQueue == [] { return None; }
      r := Some(taskQueue[0]);
      taskQueue := taskQueue[1..];
    }

    method PopAll() returns (r: seq<T>)
      modifies this
      ensures r == old(taskQueue)
      ensures State() == Emptied(old(State()))
    {
      if taskQueue == [] { return []; }
      r, taskQueue := taskQueue, [];
    }

    /** The part of WaitPop after the wait: the thread holds the lock and its condition is true. */
    method WaitPop() returns (r: Option<T>)
      requires MayPass(State())
      modifies this
      ensures r.None? <==> old(disposed)
      ensures State() == if old(disposed) then old(State()) else Popped(old(State()))
      ensures r.Some? ==> r.value == old(taskQueue)[0]
    {
      if disposed { return None; }
      r := Some(taskQueue[0]);
      taskQueue := taskQueue[1..];
    }

    method NotifyOfCompletion() returns (n: Notification)
      modifies this
      ensures State() == Completed(old(State()))
      ensures n == if outstandingTasks == 0 then AllDrainers else Nobody
    {
      outstandingTasks := outstandingTasks - 1;
      n := if outstandingTasks == 0 then AllDrainers else Nobody;
    }

    method Dispose() returns (n: Notification)
      modifies this
      ensures State() == Disposed(old(State())) && n == AllConsumers
    {
      disposed := true;
      n := AllConsumers;
    }
  }
}
