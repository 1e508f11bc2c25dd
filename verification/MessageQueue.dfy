/** The message queue of the service: a slice with a moving head, compacted in place. */
module MessageQueue {
  import opened Wrappers

  /** A slot of the slice: a queued message with its arrival time, or one that has been cleared. */
  datatype Slot<M> = Cleared | Queued(message: M, enqueuedAt: int)

  /** The head at which the slice is compacted however long it is. */
  const COMPACT_AT: nat := 1024

  function Max(a: int, b: int): int {
    if a > b then a else b
  }

  /** How long the oldest of these messages has waited; never negative. */
  function OldestAge<M>(messages: seq<Slot<M>>, now: int): (age: int)
    requires messages != [] ==> messages[0].Queued?
  {
    if messages == [] then 0 else Max(0, now - messages[0].enqueuedAt)
  }

  function ClearedSlots<M>(n: nat): (slots: seq<Slot<M>>)
    ensures |slots| == n
  {
    if n == 0 then [] else ClearedSlots(n - 1) + [Cleared]
  }

  class Queue<M> {
    var messages: seq<Slot<M>>
    var head: nat

    /** What a plain FIFO would hold. */
    function Contents(): seq<Slot<M>>
      reads this
      requires head <= |messages|
    {
      messages[head..]
    }

    /** The queue keeps no reference to a message it has handed out, and wastes less than half of a used slice. */
    predicate Valid()
      reads this
    {
      && head <= |messages|
      && (forall i :: 0 <= i < head ==> messages[i].Cleared?)
      && (forall i :: head <= i < |messages| ==> messages[i].Queued?)
      && (head == 0 || (head < COMPACT_AT && 2 * head < |messages|))
    }

    constructor ()
      ensures Valid() && Contents() == []
    {
      messages, head := [], 0;
    }

    function Depth(): nat
      reads this
      requires Valid()
      ensures Depth() == |Contents()|
      ensures Depth() > 0 ==> |messages| < 2 * Depth()
    {
      |messages| - head
    }

    /** Accepts exactly while neither the oldest message nor the one being processed lags more than maxAge. */
    method EnqueueIfCurrent(message: M, now: int, maxAge: int, processingAge: int) returns (accepted: bool)
      requires Valid()
      modifies this
      ensures Valid()
      ensures accepted <==>
                && 0 <= maxAge && processingAge <= maxAge
                && (old(Contents()) == [] || now - old(Contents())[0].enqueuedAt <= maxAge)
      ensures Contents() == if accepted then old(Contents()) + [Queued(message, now)] else old(Contents())
    {
      var oldestAge := OldestAge(messages[head..], now);
      var lag := Max(oldestAge, processingAge);
      if lag > maxAge {
        return false;
      }
      messages := messages + [Queued(message, now)];
      assert messages[head..] == old(messages[head..]) + [Queued(message, now)];
      return true;
    }

    /** The part of dequeue that runs under the lock; none means that the caller has to wait. */
    method TryDequeue() returns (first: Option<Slot<M>>)
      requires Valid()
      modifies this
      ensures Valid()
      ensures old(Contents()) == [] ==> first == None && Contents() == []
      ensures old(Contents()) != [] ==> first == Some(old(Contents())[0]) && Contents() == old(Contents())[1..]
    {
      if Depth() > 0 {
        first := Some(messages[head]);
        messages := messages[head := Cleared];
        head := head + 1;
        Compact();
      } else {
        first := None;
      }
    }

    /** Moves the queued messages to the front once half of the slice, or 1024 slots, are used up. */
    method Compact()
      requires head <= |messages|
      requires forall i :: 0 <= i < head ==> messages[i].Cleared?
      requires forall i :: head <= i < |messages| ==> messages[i].Queued?
      modifies this
      ensures Valid() && Contents() == old(Contents())
    {
      if head == 0 {
        return;
      }
      if head < COMPACT_AT && head * 2 < |messages| {
        return;
      }
      var newLen := |messages| - head;
      messages := messages[head..] + messages[newLen..];
      messages := messages[..newLen] + ClearedSlots(|messages| - newLen);
      messages := messages[..newLen];
      head := 0;
    }

    method Discard() returns (count: nat)
      requires Valid()
      modifies this
      ensures Valid() && Contents() == [] && count == |old(Contents())|
    {
      count := Depth();
      messages := [];
      head := 0;
    }
  }

  /** What a caller does to the queue. */
  datatype Call<M> = Enqueue(message: M, now: int, maxAge: int, processingAge: int) | Dequeue | Discard

  /** What the queue answers. */
  datatype Answer<M> = Accepted(yes: bool) | Taken(first: Option<Slot<M>>) | Dropped(count: nat)

  /** A plain first-in first-out queue. */
  function Fifo<M>(queue: seq<Slot<M>>, call: Call<M>): (seq<Slot<M>>, Answer<M>)
    requires forall slot :: slot in queue ==> slot.Queued?
  {
    match call
    case Enqueue(message, now, maxAge, processingAge) =>
      var accepted := 0 <= maxAge && processingAge <= maxAge && (queue == [] || now - queue[0].enqueuedAt <= maxAge);
      (if accepted then queue + [Queued(message, now)] else queue, Accepted(accepted))
    case Dequeue => if queue == [] then ([], Taken(None)) else (queue[1..], Taken(Some(queue[0])))
    case Discard => ([], Dropped(|queue|))
  }

  function FifoAnswers<M>(queue: seq<Slot<M>>, calls: seq<Call<M>>): seq<Answer<M>>
    requires forall slot :: slot in queue ==> slot.Queued?
    decreases |calls|
  {
    if calls == [] then [] else [Fifo(queue, calls[0]).1] + FifoAnswers(Fifo(queue, calls[0]).0, calls[1..])
  }

  /** One call on the compacting queue is that call on a plain one. */
  method Perform<M>(queue: Queue<M>, call: Call<M>) returns (answer: Answer<M>)
    requires queue.Valid()
    modifies queue
    ensures queue.Valid() && (queue.Contents(), answer) == Fifo(old(queue.Contents()), call)
  {
    match call {
      case Enqueue(message, now, maxAge, processingAge) =>
        var accepted := queue.EnqueueIfCurrent(message, now, maxAge, processingAge);
        return Accepted(accepted);
      case Dequeue =>
        var first := queue.TryDequeue();
        return Taken(first);
      case Discard =>
        var count := queue.Discard();
        return Dropped(count);
    }
  }

  lemma OneMoreAnswer<M>(queue: seq<Slot<M>>, calls: seq<Call<M>>, answers: seq<Answer<M>>)
    requires calls != [] && forall slot :: slot in queue ==> slot.Queued?
    ensures answers + FifoAnswers(queue, calls) ==
              answers + [Fifo(queue, calls[0]).1] + FifoAnswers(Fifo(queue, calls[0]).0, calls[1..])
  {
  }

  /** Over any run of calls, the compacting queue answers what a plain FIFO answers. */
  method Serve<M>(calls: seq<Call<M>>) returns (answers: seq<Answer<M>>)
    ensures answers == FifoAnswers([], calls)
  {
    var queue := new Queue<M>();
    answers := [];
    for i := 0 to |calls|
      invariant queue.Valid() && fresh(queue)
      invariant FifoAnswers([], calls) == answers + FifoAnswers(queue.Contents(), calls[i..])
    {
      OneMoreAnswer(queue.Contents(), calls[i..], answers);
      assert calls[i..][1..] == calls[i + 1..];
      var answer := Perform(queue, calls[i]);
      answers := answers + [answer];
    }
  }
}
