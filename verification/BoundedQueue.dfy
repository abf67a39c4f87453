/** The bounded queue between two sync threads: one lock-holding section per step. */
module BoundedQueues {
  import opened Bytes

  // What an exception_ptr can hold: a BtkError with its text, or anything else.
  datatype Error = Btk(message: string) | Foreign(tag: nat)

  datatype Queue<+T> = Queue(max: nat, items: seq<T>, closed: bool, err: Option<Error>)

  datatype Pushed = Stored | Dropped | PushThrew(e: Error) | PushWait

  datatype Popped<+T> = Item(value: T) | End | PopThrew(e: Error) | PopWait

  /**
   * push from the moment the lock is taken to the moment it is released. waited says the lock was
   * regained after wait_for, where the stop flag is looked at before the condition.
   */
  function Push<T>(q: Queue<T>, item: T, waited: bool, stop: bool): (Pushed, Queue<T>) {
    if waited && stop then (Dropped, q.(closed := true))
    else if |q.items| >= q.max && !q.closed && q.err.None? then (PushWait, q)
    else if q.err.Some? then (PushThrew(q.err.value), q)
    else if q.closed then (Dropped, q)
    else (Stored, q.(items := q.items + [item]))
  }

  function Pop<T>(q: Queue<T>, waited: bool, stop: bool): (Popped<T>, Queue<T>) {
    if waited && stop && q.items == [] then (End, q.(closed := true))
    else if q.items == [] && !q.closed && q.err.None? then (PopWait, q)
    else if q.err.Some? then (PopThrew(q.err.value), q)
    else if q.items == [] then (End, q)
    else (Item(q.items[0]), q.(items := q.items[1..]))
  }

  function Close<T>(q: Queue<T>): Queue<T> { q.(closed := true) }

  /** Only the first error is kept. */
  function Fail<T>(q: Queue<T>, e: Error): Queue<T> {
    q.(closed := true, err := if q.err.None? then Some(e) else q.err)
  }

  /** A push stores into an open queue with room; an error comes before everything but a stop seen after waiting. */
  lemma PushOutcome<T>(q: Queue<T>, item: T, waited: bool, stop: bool)
    ensures var (r, q') := Push(q, item, waited, stop);
      && (r == Stored <==> q.err.None? && !q.closed && |q.items| < q.max && !(waited && stop))
      && (r == PushWait <==> q.err.None? && !q.closed && |q.items| >= q.max && !(waited && stop))
      && (r.PushThrew? <==> q.err.Some? && !(waited && stop)) && (r.PushThrew? ==> q.err == Some(r.e))
      && q'.items == q.items + (if r == Stored then [item] else [])
      && q'.err == q.err && q'.max == q.max && (q'.closed <==> q.closed || (waited && stop))
  {
  }

  /** A pop hands out the oldest item, but never past an error; it ends when nothing can come any more. */
  lemma PopOutcome<T>(q: Queue<T>, waited: bool, stop: bool)
    ensures var (r, q') := Pop(q, waited, stop);
      && (r.Item? <==> q.err.None? && q.items != [])
      && (r.PopThrew? <==> q.err.Some? && (q.items != [] || !(waited && stop))) && (r.PopThrew? ==> q.err == Some(r.e))
      && (r == PopWait <==> q.err.None? && q.items == [] && !q.closed && !(waited && stop))
      && q.items == (if r.Item? then [r.value] else []) + q'.items
      && q'.err == q.err && q'.max == q.max && (q'.closed <==> q.closed || (waited && stop && q.items == []))
  {
  }

  /** The object the threads share. */
  class BoundedQueue<T> {
    const max: nat
    var items: seq<T>
    var closed: bool
    var err: Option<Error>

    constructor (max: nat)
      ensures Value() == Queue(max, [], false, None)
    {
      this.max := max;
      items, closed, err := [], false, None;
    }

    ghost function Value(): Queue<T>
      reads this
    {
      Queue(max, items, closed, err)
    }

    method PushLocked(item: T, waited: bool, stop: bool) returns (r: Pushed)
      modifies this
      ensures (r, Value()) == Push(old(Value()), item, waited, stop)
    {
      if waited && stop {
        closed := true;
        return Dropped;
      }
      if !(|items| < max || closed || err.Some?) {
        return PushWait;
      }
      if err.Some? {
        return PushThrew(err.value);
      }
      if closed {
        return Dropped;
      }
      items := items + [item];
      return Stored;
    }

    method PopLocked(waited: bool, stop: bool) returns (r: Popped<T>)
      modifies this
      ensures (r, Value()) == Pop(old(Value()), waited, stop)
    {
      if waited && stop && |items| == 0 {
        closed := true;
        return End;
      }
      if !(|items| != 0 || closed || err.Some?) {
        return PopWait;
      }
      if err.Some? {
        return PopThrew(err.value);
      }
      if |items| == 0 {
        return End;
      }
      r := Item(items[0]);
      items := items[1..];
    }

    method CloseLocked()
      modifies this
      ensures Value() == Close(old(Value()))
    {
      closed := true;
    }

    method FailLocked(e: Error)
      modifies this
      ensures Value() == Fail(old(Value()), e)
    {
      if err.None? {
        err := Some(e);
      }
      closed := true;
    }
  }
}
