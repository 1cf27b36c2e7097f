/** The assignment queue: a FIFO held in a buffered channel of capacity
    1024. Sending on a full channel and receiving from an empty one block
    in the source; here those are preconditions. */
module Scheduler {
  import opened Types

  /** The channel's buffer size. */
  const Capacity: nat := 1024

  class TaskQueue {
    /** The tasks waiting in the channel, head first. */
    var buf: seq<TaskRef>
    /** Everything ever sent, and everything ever received, in order. */
    ghost var pushed: seq<TaskRef>
    ghost var popped: seq<TaskRef>

    /** The buffer never exceeds the channel capacity, and what was
        received followed by what is still waiting is exactly what was
        sent: nothing is lost, duplicated or invented. */
    ghost predicate Valid()
      reads this
    {
      |buf| <= Capacity && popped + buf == pushed
    }

    constructor ()
      ensures Valid()
      ensures buf == [] && pushed == [] && popped == []
    {
      buf := [];
      pushed := [];
      popped := [];
    }

    /** Send: the task joins the tail; what was already waiting is unchanged. */
    method Push(t: TaskRef)
      requires Valid()
      requires |buf| < Capacity
      modifies this
      ensures Valid()
      ensures buf == old(buf) + [t]
      ensures pushed == old(pushed) + [t] && popped == old(popped)
    {
      buf := buf + [t];
      pushed := pushed + [t];
    }

    /** Receive: the head comes out and exactly the rest remains. */
    method Pop() returns (t: TaskRef)
      requires Valid()
      requires |buf| > 0
      modifies this
      ensures Valid()
      ensures t == old(buf)[0] && buf == old(buf)[1..]
      ensures popped == old(popped) + [t] && pushed == old(pushed)
    {
      t := buf[0];
      buf := buf[1..];
      popped := popped + [t];
    }
  }

  /** What has been received is always a prefix of what has been sent. */
  lemma PoppedIsPrefix(q: TaskQueue)
    requires q.Valid()
    ensures q.popped <= q.pushed
    ensures |q.pushed| - |q.popped| <= Capacity
  {
  }

  /** FIFO order: two tasks pushed onto a fresh queue come out in the
      order they went in. */
  method FifoOrder(t1: TaskRef, t2: TaskRef) returns (first: TaskRef, second: TaskRef)
    ensures first == t1 && second == t2
  {
    var q := new TaskQueue();
    q.Push(t1);
    q.Push(t2);
    first := q.Pop();
    second := q.Pop();
  }
}
