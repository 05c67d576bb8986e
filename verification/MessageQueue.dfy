/**
  The message queue between two event loops (src/Core/AsyncMessageQueue.h). Sends to the notifier
  coalesce: many enqueues may lead to one call of OnMessageComing, which takes everything there is.
 */
module MessageQueue {

  /** The queue and whether a wakeup of the receiving loop is pending. */
  datatype Channel<T> = Channel(queue: seq<T>, pending: bool)

  function Enqueued<T>(c: Channel<T>, message: T): Channel<T>
  {
    Channel(c.queue + [message], true)
  }

  /** The loop has noticed the wakeup; its callback has not locked the queue yet. */
  function Noticed<T>(c: Channel<T>): Channel<T> { c.(pending := false) }

  function Drained<T>(c: Channel<T>): Channel<T> { c.(queue := []) }

  class AsyncMessageQueue<T> {
    var queue: seq<T>
    var pending: bool

    ghost function State(): Channel<T>
      reads this
    {
      Channel(queue, pending)
    }

    constructor ()
      ensures State() == Channel([], false)
    {
      queue, pending := [], false;
    }

    method Enqueue(message: T)
      modifies this
      ensures State() == Enqueued(old(State()), message)
    {
      queue := queue + [message];
      pending := true;
    }

    /** The part of OnMessageComing under the lock: empties the queue in order. */
    method TakeAll() returns (messages: seq<T>)
      modifies this
      ensures messages == old(queue)
      ensures State() == Drained(old(State()))
    {
      messages := [];
      while queue != []
        invariant messages + queue == old(queue)
        invariant pending == old(pending)
        decreases |queue|
      {
        messages := messages + [queue[0]];
        queue := queue[1..];
      }
    }
  }
}
