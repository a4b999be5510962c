/** The bounded message queue of a task (module/message/main.c). */
module MessageQueue {
  import opened Arithmetic

  /** The fields of a message buffer. `slots` has the length MSG_MAXCOUNT, `head` and `tail` are 16-bit integers. */
  datatype Queue<T> = Queue(head: int, tail: int, count: nat, slots: seq<T>)

  /** What a pop reads: nothing, a slot, or memory past the last slot. */
  datatype Popped<T> = Empty | Got(msg: T) | OutOfBounds

  predicate Shape<T>(q: Queue<T>) {
    0 < |q.slots| <= 0x7FFF && 0 <= q.tail < |q.slots| && q.count <= |q.slots| && 0 <= q.head <= 0x7FFF
  }

  /** message_push */
  function Pushed<T>(q: Queue<T>, msg: T): (r: Queue<T>)
    requires Shape(q)
    ensures Shape(r) && |r.slots| == |q.slots|
  {
    Queue(q.head,
          if q.tail + 1 >= |q.slots| then 0 else q.tail + 1,
          if q.count < |q.slots| then q.count + 1 else q.count,
          q.slots[q.tail := msg])
  }

  /** The head after a pop: a 16-bit increment, with the wrap of message_pop, which looks below zero only. */
  function NextHead(head: int, capacity: nat): int {
    var next := if head == 0x7FFF then -0x8000 else head + 1;
    if next < 0 then capacity - 1 else next
  }

  /** message_pop: the queue left behind. */
  function Rest<T>(q: Queue<T>): (r: Queue<T>)
    requires Shape(q)
    ensures Shape(r) && |r.slots| == |q.slots|
  {
    if q.count == 0 then q else q.(head := NextHead(q.head, |q.slots|), count := q.count - 1)
  }

  /** message_pop and message_peep: what is read. */
  function First<T>(q: Queue<T>): Popped<T>
    requires Shape(q)
  {
    if q.count == 0 then Empty
    else if q.head < |q.slots| then Got(q.slots[q.head])
    else OutOfBounds
  }

  /** `q` holds the messages of `pushed` that are left after `pops` of them were taken. */
  ghost predicate Fifo<T>(q: Queue<T>, pushed: seq<T>, pops: nat) {
    && Shape(q) && pops <= |pushed| && pops <= |q.slots|
    && q.head == pops && q.count == |pushed| - pops && q.tail == Remainder(|pushed|, |q.slots|)
    && forall i :: pops <= i < |pushed| ==> q.slots[Remainder(i, |q.slots|)] == pushed[i]
  }

  /** One message on is one slot on. */
  lemma SlotStep(i: nat, n: nat)
    requires n > 0
    ensures Remainder(i + 1, n) == if Remainder(i, n) + 1 == n then 0 else Remainder(i, n) + 1
  {
    hide Quotient, Remainder;
    var q, r := Quotient(i, n), Remainder(i, n);
    Division(i, n);
    if r + 1 == n {
      assert n * (q + 1) == n * q + n;
      DivisionUnique(i + 1, n, q + 1, 0);
    } else {
      DivisionUnique(i + 1, n, q, r + 1);
    }
  }

  /** A full turn leads back to the same slot. */
  lemma SlotTurn(i: nat, n: nat)
    requires i < n
    ensures Remainder(i, n) == i && Remainder(i + n, n) == i
  {
    DivisionUnique(i, n, 0, i);
    DivisionUnique(i + n, n, 1, i);
  }

  /** Positions less than `n` apart have different slots. */
  lemma SlotsApart(a: nat, b: nat, n: nat)
    requires n > 0 && a <= b < a + n && Remainder(a, n) == Remainder(b, n)
    ensures a == b
  {
    hide Quotient, Remainder;
    var p, q := Quotient(a, n), Quotient(b, n);
    Division(a, n);
    Division(b, n);
    assert n * (p + 1) == n * p + n;
    if p < q {
      MulMonotonic(n, p + 1, q);
    } else {
      MulMonotonic(n, q, p);
    }
  }

  /** A push appends exactly when the queue is not full. */
  lemma PushAppendsIff<T>(q: Queue<T>, pushed: seq<T>, pops: nat, msg: T)
    requires Fifo(q, pushed, pops)
    ensures Fifo(Pushed(q, msg), pushed + [msg], pops) <==> q.count < |q.slots|
  {
    hide Remainder;
    var n, all := |q.slots|, pushed + [msg];
    if q.count < n {
      SlotStep(|pushed|, n);
      forall i | pops <= i < |all|
        ensures Pushed(q, msg).slots[Remainder(i, n)] == all[i]
      {
        if i < |pushed| && Remainder(i, n) == q.tail {
          SlotsApart(i, |pushed|, n);
        }
      }
    }
  }

  /** On a full queue the push overwrites the oldest message, and the newest is the next one read. */
  lemma FullPushLosesTheOldest<T>(q: Queue<T>, pushed: seq<T>, pops: nat, msg: T)
    requires Fifo(q, pushed, pops) && q.count == |q.slots| && pops < |q.slots|
    ensures First(q) == Got(pushed[pops]) && First(Pushed(q, msg)) == Got(msg)
    ensures forall i :: pops < i < |pushed| ==> Pushed(q, msg).slots[Remainder(i, |q.slots|)] == pushed[i]
  {
    hide Remainder;
    var n := |q.slots|;
    SlotTurn(pops, n);
    forall i | pops < i < |pushed|
      ensures Remainder(i, n) != q.tail
    {
      if Remainder(i, n) == q.tail {
        SlotsApart(pops, i, n);
      }
    }
  }

  /** A pop takes the oldest message, exactly while fewer pops than slots went before. */
  lemma PopTakesOldestIff<T>(q: Queue<T>, pushed: seq<T>, pops: nat)
    requires Fifo(q, pushed, pops) && q.count > 0
    ensures First(q) == (if pops < |q.slots| then Got(pushed[pops]) else OutOfBounds)
    ensures pops < |q.slots| ==> Fifo(Rest(q), pushed, pops + 1)
  {
    hide Remainder;
    if pops < |q.slots| {
      SlotTurn(pops, |q.slots|);
    }
  }

  datatype Op<T> = PushOp(msg: T) | PopOp

  datatype Trace<T> = Trace(queue: Queue<T>, pushed: seq<T>, popped: seq<Popped<T>>)

  function Then<T>(t: Trace<T>, op: Op<T>): (r: Trace<T>)
    requires Shape(t.queue)
    ensures Shape(r.queue) && |r.queue.slots| == |t.queue.slots|
  {
    match op
    case PushOp(msg) => Trace(Pushed(t.queue, msg), t.pushed + [msg], t.popped)
    case PopOp => Trace(Rest(t.queue), t.pushed, t.popped + [First(t.queue)])
  }

  /** The run of a list of operations, with what was pushed and what the pops read. */
  function Run<T>(q: Queue<T>, ops: seq<Op<T>>): (r: Trace<T>)
    requires Shape(q)
    ensures Shape(r.queue) && |r.queue.slots| == |q.slots|
  {
    if ops == [] then Trace(q, [], []) else Then(Run(q, ops[..|ops| - 1]), ops[|ops| - 1])
  }

  /** The messages among what the pops read. */
  function Taken<T>(popped: seq<Popped<T>>): (r: seq<T>)
    ensures |r| <= |popped|
  {
    if popped == [] then []
    else
      var init := Taken(popped[..|popped| - 1]);
      if popped[|popped| - 1].Got? then init + [popped[|popped| - 1].msg] else init
  }

  lemma TakenThen<T>(popped: seq<Popped<T>>, p: Popped<T>)
    ensures Taken(popped + [p]) == if p.Got? then Taken(popped) + [p.msg] else Taken(popped)
  {
    assert (popped + [p])[..|popped|] == popped;
  }

  ghost predicate NeverPushesWhenFull<T>(q: Queue<T>, ops: seq<Op<T>>)
    requires Shape(q)
  {
    forall k :: 0 <= k < |ops| && ops[k].PushOp? ==>
                  var before := Run(q, ops[..k]).queue; before.count < |before.slots|
  }

  /** What was taken is a prefix of what was pushed, and the queue holds the rest. */
  ghost predicate InOrder<T>(t: Trace<T>) {
    Taken(t.popped) <= t.pushed && Fifo(t.queue, t.pushed, |Taken(t.popped)|)
  }

  lemma ThenInOrder<T>(t: Trace<T>, op: Op<T>)
    requires Shape(t.queue) && InOrder(t) && (op.PushOp? ==> t.queue.count < |t.queue.slots|)
    ensures var r := Then(t, op);
            && (op.PopOp? && First(t.queue) == OutOfBounds <==> !InOrder(r))
            && (First(t.queue) == OutOfBounds ==> |t.popped| >= |t.queue.slots|)
  {
    hide Remainder;
    match op
    case PushOp(msg) =>
      PushAppendsIff(t.queue, t.pushed, |Taken(t.popped)|, msg);
    case PopOp =>
      TakenThen(t.popped, First(t.queue));
      if t.queue.count > 0 {
        PopTakesOldestIff(t.queue, t.pushed, |Taken(t.popped)|);
      }
  }

  /** The messages read by a run that does not push when full are the first ones pushed, in order, across the wraps
      of `tail`, and what is left is the rest of them: unless a pop reads past the buffer, which takes more pops than
      slots. */
  lemma {:induction false} RunIsFifo<T>(q: Queue<T>, ops: seq<Op<T>>)
    requires Fifo(q, [], 0) && NeverPushesWhenFull(q, ops)
    ensures var t := Run(q, ops);
            && (OutOfBounds !in t.popped ==> InOrder(t))
            && (OutOfBounds in t.popped ==> |t.popped| > |q.slots|)
  {
    hide Fifo, Shape, Remainder, InOrder, Taken, First, Rest, Pushed;
    NothingYet(q);
    if ops != [] {
      var init := ops[..|ops| - 1];
      forall k | 0 <= k < |init| && init[k].PushOp?
        ensures var before := Run(q, init[..k]).queue; before.count < |before.slots|
      {
        assert init[..k] == ops[..k];
      }
      RunIsFifo(q, init);
      var t := Run(q, init);
      if OutOfBounds !in t.popped {
        ThenInOrder(t, ops[|ops| - 1]);
      }
    }
  }

  lemma NothingYet<T>(q: Queue<T>)
    requires Fifo(q, [], 0)
    ensures Shape(q) && InOrder(Trace(q, [], []))
  {
  }

  /** A buffer of one slot: the second message pushed hides the first, and a second pop reads past the slot. */
  lemma FullPushAndSecondPop()
    ensures var q := Queue(0, 0, 0, [0]);
            && Run(q, [PushOp(1), PushOp(2), PopOp]).popped == [Got(2)]
            && Run(q, [PushOp(1), PopOp, PushOp(2), PopOp]).popped == [Got(1), OutOfBounds]
  {
    var q := Queue(0, 0, 0, [0]);
    var one: seq<Op<int>> := [PushOp(1)];
    var a, b := one + [PushOp(2), PopOp], one + [PopOp, PushOp(2), PopOp];
    assert Run(q, one) == Trace(Queue(0, 0, 1, [1]), [1], []);
    assert a[..1] == b[..1] == one && a[..2][..1] == b[..2][..1] == one;
    assert Run(q, a[..2]) == Trace(Queue(0, 0, 1, [2]), [1, 2], []);
    assert Run(q, b[..2]) == Trace(Queue(1, 0, 0, [1]), [1], [Got(1)]);
    assert b[..3][..2] == b[..2];
    assert Run(q, b[..3]) == Trace(Queue(1, 0, 1, [2]), [1, 2], [Got(1)]);
    assert a == [PushOp(1), PushOp(2), PopOp] && b == [PushOp(1), PopOp, PushOp(2), PopOp];
  }

  /** A message buffer. Its slots are overwritten in place. */
  class MessageBuffer<T> {
    const buffer: array<T>
    var head: int
    var tail: int
    var count: nat

    ghost function State(): Queue<T>
      reads this, buffer
    {
      Queue(head, tail, count, buffer[..])
    }

    ghost predicate Valid()
      reads this, buffer
    {
      Shape(State())
    }

    /** A message_buffer_t filled with zeros. */
    constructor (capacity: nat, zero: T)
      requires 0 < capacity <= 0x7FFF
      ensures Valid() && fresh(buffer) && State() == Queue(0, 0, 0, seq(capacity, _ => zero)) && Fifo(State(), [], 0)
    {
      buffer := new T[capacity](_ => zero);
      head, tail, count := 0, 0, 0;
      new;
      assert buffer[..] == seq(capacity, _ => zero);
    }

    /** message_push */
    method Push(msg: T) returns (r: int)
      requires Valid()
      modifies this, buffer
      ensures Valid() && r == 0 && State() == Pushed(old(State()), msg)
    {
      buffer[tail] := msg;
      tail := tail + 1;
      if tail >= buffer.Length {
        tail := 0;
      }
      if count < buffer.Length {
        count := count + 1;
      }
      return 0;
    }

    /** message_pop. Reading a slot needs `head` inside the buffer, which holds for as many pops as there are slots. */
    method Pop() returns (msg: Popped<T>)
      requires Valid()
      modifies this
      ensures Valid() && State() == Rest(old(State())) && msg == First(old(State()))
    {
      if count == 0 {
        return Empty;
      }
      msg := if head < buffer.Length then Got(buffer[head]) else OutOfBounds;
      head := if head == 0x7FFF then -0x8000 else head + 1;
      if head < 0 {
        head := buffer.Length - 1;
      }
      count := count - 1;
    }
  }
}
