/** What every run of the scheduler and the message passing keeps. */
module IpcLaws {
  import opened Arithmetic
  import opened MessageQueue
  import opened Ipc

  /** A run of sections each of which can happen where it stands, within the 32-bit pids. */
  predicate Legal(s: System, es: seq<Event>)
    decreases |es|
  {
    es == [] ||
    (Shaped(s) && Enabled(s, es[0]) && (es[0].Spawn? ==> |s.tasks| < PIDS) && Legal(Step(s, es[0]), es[1..]))
  }

  function Run(s: System, es: seq<Event>): System
    requires Legal(s, es)
    decreases |es|
  {
    if es == [] then s else Run(Step(s, es[0]), es[1..])
  }

  lemma {:induction false} RunKeepsInv(s: System, es: seq<Event>)
    requires Inv(s) && Legal(s, es)
    ensures Inv(Run(s, es))
    decreases |es|
  {
    hide Inv, Step;
    if es != [] {
      StepKeepsInv(s, es[0]);
      RunKeepsInv(Step(s, es[0]), es[1..]);
    }
  }

  // ---------------------------------------------------------------- no lost wakeup

  /** In every state of every run a task blocked in a receive has an empty buffer, and one that was woken from it has a
      message in its buffer. Its pop reads that message exactly while the head is inside the buffer. */
  lemma NoLostWakeup(capacity: nat, es: seq<Event>, i: nat)
    requires 0 < capacity <= 0x7FFF && Legal(Boot(capacity), es)
    requires var s := Run(Boot(capacity), es); i < |s.tasks| && s.tasks[i].status.Receiving?
    ensures var s := Run(Boot(capacity), es);
            var t := s.tasks[i];
            && Shape(t.inbox)
            && (t.blocked <==> t.inbox.count == 0)
            && (s.current == i + 1 ==> t.inbox.count > 0)
            && (t.inbox.count > 0 ==> (First(t.inbox).Got? <==> t.inbox.head < capacity) && First(t.inbox) != Empty)
  {
    BootInv(capacity);
    RunKeepsInv(Boot(capacity), es);
    KeepsCapacity(Boot(capacity), es);
    assert TaskOk(Run(Boot(capacity), es), i);
  }

  lemma {:induction false} KeepsCapacity(s: System, es: seq<Event>)
    requires Inv(s) && Legal(s, es)
    ensures Run(s, es).capacity == s.capacity
    decreases |es|
  {
    hide Inv, Step;
    if es != [] {
      StepTasks(s, es[0]);
      StepKeepsInv(s, es[0]);
      KeepsCapacity(Step(s, es[0]), es[1..]);
    }
  }

  /** With buffers of one message, the second message that a task waits for is read from behind its buffer: the first
      one has moved the head there. */
  lemma WokenReaderPastTheBuffer()
    ensures var es := [Spawn, Spawn, Tick, Send(1, 5), Tick, Receive, Receive, Tick, Send(1, 6), Tick];
            && Legal(Boot(1), es)
            && var s := Run(Boot(1), es);
               && Inv(s) && Possible(s, Resume) && s.current == 2 && Me(s).status.Receiving?
               && Me(s).inbox.count == 1 && First(Me(s).inbox) == OutOfBounds
  {
    hide Run, Legal, Inv, Step, FirstTask, SecondTask, Emptied, Filled, First;
    WokenReads();
    var a, b := FirstTask(), SecondTask();
    var waiting := Emptied(b).(blocked := true, status := Receiving);
    TwoTasksStart();
    SendFillsTheBuffer();
    ReceiveThenWait();
    SecondSendWakes();
    RunNone(Both(a, Woken(b), 2));
    RunOne(Both(a, Woken(b), 1), [Tick]);
    RunOne(Both(a, waiting, 1), [Send(1, 6), Tick]);
    RunOne(Both(a, waiting, 0), [Tick, Send(1, 6), Tick]);
    RunOne(Both(a, Emptied(b), 2), [Receive, Tick, Send(1, 6), Tick]);
    RunOne(Both(a, Filled(b), 2), [Receive, Receive, Tick, Send(1, 6), Tick]);
    RunOne(Both(a, Filled(b), 1), [Tick, Receive, Receive, Tick, Send(1, 6), Tick]);
    RunOne(Both(a, b, 1), [Send(1, 5), Tick, Receive, Receive, Tick, Send(1, 6), Tick]);
    RunOne(Both(a, b, 0), [Tick, Send(1, 5), Tick, Receive, Receive, Tick, Send(1, 6), Tick]);
    RunOne(System([a], 0, 1, 1), [Spawn, Tick, Send(1, 5), Tick, Receive, Receive, Tick, Send(1, 6), Tick]);
    RunOne(Boot(1), [Spawn, Spawn, Tick, Send(1, 5), Tick, Receive, Receive, Tick, Send(1, 6), Tick]);
    BootInv(1);
    RunKeepsInv(Boot(1), [Spawn, Spawn, Tick, Send(1, 5), Tick, Receive, Receive, Tick, Send(1, 6), Tick]);
  }

  lemma WokenReads()
    ensures var s := Both(FirstTask(), Woken(SecondTask()), 2);
            Possible(s, Resume) && Me(s).inbox.count == 1 && First(Me(s).inbox) == OutOfBounds
  {
  }

  function Woken(b: Task): Task {
    b.(status := Receiving, inbox := Queue(1, 0, 1, [Message(0, 1, 6)]))
  }

  lemma ReceiveThenWait()
    ensures var s := Both(FirstTask(), Filled(SecondTask()), 1);
            Possible(s, Tick) && Step(s, Tick) == Both(FirstTask(), Filled(SecondTask()), 2)
    ensures var s := Both(FirstTask(), Filled(SecondTask()), 2);
            Possible(s, Receive) && Step(s, Receive) == Both(FirstTask(), Emptied(SecondTask()), 2)
    ensures var s := Both(FirstTask(), Emptied(SecondTask()), 2);
            Possible(s, Receive)
            && Step(s, Receive) == Both(FirstTask(), Emptied(SecondTask()).(blocked := true, status := Receiving), 0)
  {
    BlockMeIs(Both(FirstTask(), Emptied(SecondTask()), 2), Receiving);
  }

  lemma SecondSendWakes()
    ensures var waiting := Emptied(SecondTask()).(blocked := true, status := Receiving);
            && Possible(Both(FirstTask(), waiting, 0), Tick)
            && Step(Both(FirstTask(), waiting, 0), Tick) == Both(FirstTask(), waiting, 1)
            && Possible(Both(FirstTask(), waiting, 1), Send(1, 6))
            && Step(Both(FirstTask(), waiting, 1), Send(1, 6)) == Both(FirstTask(), Woken(SecondTask()), 1)
    ensures Possible(Both(FirstTask(), Woken(SecondTask()), 1), Tick)
    ensures Step(Both(FirstTask(), Woken(SecondTask()), 1), Tick) == Both(FirstTask(), Woken(SecondTask()), 2)
  {
    var s := Both(FirstTask(), Emptied(SecondTask()).(blocked := true, status := Receiving), 1);
    FindAt(s.tasks, 1);
    DeliverIs(s, 1, Message(0, 1, 6));
    assert Pushed(Emptied(SecondTask()).inbox, Message(0, 1, 6)) == Woken(SecondTask()).inbox;
  }

  /** A spawned pid is new exactly while fewer than 2^32 tasks were spawned; the next one takes the pid of the first. */
  lemma SpawnedPidIsNewIff(s: System)
    requires Inv(s) && Shaped(s) && Enabled(s, Spawn)
    ensures (forall i :: 0 <= i < |s.tasks| ==> s.tasks[i].pid != s.nextPid) <==> |s.tasks| < PIDS
  {
    InvPids(s);
    if |s.tasks| == PIDS {
      assert s.tasks[0].pid == s.nextPid;
    }
  }

  // ---------------------------------------------------------------- what the calls do

  /** A switch from ring position `i` leads to `j`: the first unblocked task behind it in the table, or the bootstrap
      task at 0 where there is none. */
  predicate FirstReadyAfter(tasks: seq<Task>, i: nat, j: nat)
  {
    && (j == 0 || (i < j <= |tasks| && !tasks[j - 1].blocked))
    && forall k :: i <= k < |tasks| && (j == 0 || k < j - 1) ==> tasks[k].blocked
  }

  lemma {:induction false} NextReadyIsAfter(tasks: seq<Task>, i: nat)
    requires i <= |tasks|
    ensures FirstReadyAfter(tasks, i, NextReady(tasks, i))
    decreases |tasks| - i
  {
    if i < |tasks| && tasks[i].blocked {
      NextReadyIsAfter(tasks, i + 1);
    }
  }

  /** message_async_send: no such task; a free slot, which takes the message and wakes the task it is for; or a full
      buffer, at which the sender blocks with its message. */
  lemma SendOutcome(s: System, dst: nat, data: int)
    requires Inv(s) && Possible(s, Send(dst, data))
    ensures 0 < s.current <= |s.tasks|
    ensures var r, me, m := Step(s, Send(dst, data)), s.current - 1, Message(s.current - 1, dst, data);
            if dst >= |s.tasks| then r == s
            else
              var t := s.tasks[dst];
              var q := t.inbox;
              && 0 <= q.tail < |q.slots| == s.capacity
              && if q.count < s.capacity then
                   r == s.(tasks := s.tasks[dst := t.(blocked := false, inbox :=
                     Queue(q.head, if q.tail + 1 == s.capacity then 0 else q.tail + 1, q.count + 1,
                           q.slots[q.tail := m]))])
                 else
                   && r == s.(tasks := s.tasks[me := s.tasks[me].(blocked := true, status := Sending(dst, m))],
                              current := r.current)
                   && FirstReadyAfter(r.tasks, s.current, r.current)
  {
    hide NextReady, Find, FirstReadyAfter;
    InvPids(s);
    FindByPid(s.tasks, dst);
    if dst < |s.tasks| {
      assert TaskOk(s, dst);
      var m := Message(s.current - 1, dst, data);
      if s.tasks[dst].inbox.count < s.capacity {
        DeliverIs(s, dst, m);
      } else {
        BlockMeIs(s, Sending(dst, m));
        NextReadyIsAfter(Step(s, Send(dst, data)).tasks, s.current);
      }
    }
  }

  /** message_async_recv and message_async_recv_poll: on an empty buffer the one blocks and the other does nothing. The
      oldest message otherwise leaves the buffer, and the head moves on, without a wrap at the end of the buffer. */
  lemma ReceiveOutcome(s: System, e: Event)
    requires Inv(s) && Possible(s, e) && (e.Receive? || e.Poll?)
    ensures 0 < s.current <= |s.tasks|
    ensures var r, me, q := Step(s, e), s.current - 1, s.tasks[s.current - 1].inbox;
            if q.count == 0 then
              if e.Poll? then r == s
              else
                && r == s.(tasks := s.tasks[me := s.tasks[me].(blocked := true, status := Receiving)],
                           current := r.current)
                && FirstReadyAfter(r.tasks, s.current, r.current)
            else
              r == s.(tasks := s.tasks[me := s.tasks[me].(inbox :=
                Queue(if q.head == 0x7FFF then s.capacity - 1 else q.head + 1, q.tail, q.count - 1, q.slots))])
  {
    hide NextReady, Find, FirstReadyAfter;
    InvPids(s);
    assert TaskOk(s, s.current - 1);
    if e.Receive? && s.tasks[s.current - 1].inbox.count == 0 {
      BlockMeIs(s, Receiving);
      NextReadyIsAfter(Step(s, e).tasks, s.current);
    }
  }

  /** The rest of a call that had blocked. A receiver takes the oldest message. A sender pushes the message it had
      brought, whether there is room by now or not, and wakes the task it is for. */
  lemma ResumeOutcome(s: System)
    requires Inv(s) && Possible(s, Resume)
    ensures 0 < s.current <= |s.tasks|
    ensures var r, me := Step(s, Resume), s.current - 1;
            var awake := s.tasks[me := s.tasks[me].(status := Running)];
            match s.tasks[me].status
            case Receiving =>
              var q := s.tasks[me].inbox;
              && q.count > 0
              && r == s.(tasks := awake[me := awake[me].(inbox :=
                   Queue(if q.head == 0x7FFF then s.capacity - 1 else q.head + 1, q.tail, q.count - 1, q.slots))])
            case Sending(to, m) =>
              && to == m.dst < |s.tasks|
              && var q := s.tasks[to].inbox;
                 && 0 <= q.tail < |q.slots| == s.capacity
                 && r == s.(tasks := awake[to := awake[to].(blocked := false, inbox :=
                      Queue(q.head, if q.tail + 1 == s.capacity then 0 else q.tail + 1,
                            if q.count < s.capacity then q.count + 1 else q.count, q.slots[q.tail := m]))])
            case Running => false
  {
    hide NextReady, Find;
    InvPids(s);
    assert TaskOk(s, s.current - 1);
    var st := s.tasks[s.current - 1].status;
    if st.Sending? {
      assert TaskOk(s, st.to);
      DeliverIs(WithMe(s, Me(s).(status := Running)), st.to, st.msg);
    }
  }

  /** A tick only dispatches, and a new task comes last, unblocked and with an empty buffer. */
  lemma TickAndSpawnOutcome(s: System)
    requires Inv(s)
    ensures Possible(s, Tick) ==>
              var r := Step(s, Tick); r == s.(current := r.current) && FirstReadyAfter(s.tasks, s.current, r.current)
    ensures Possible(s, Spawn) ==>
              var r := Step(s, Spawn);
              && |r.tasks| == |s.tasks| + 1 && r == s.(tasks := r.tasks, nextPid := (s.nextPid + 1) % 0x1_0000_0000)
              && r.tasks[..|s.tasks|] == s.tasks
              && var t := r.tasks[|s.tasks|];
                 && t.pid == s.nextPid && !t.blocked && t.status == Running
                 && t.inbox.head == t.inbox.tail == t.inbox.count == 0 && |t.inbox.slots| == s.capacity
  {
    NextReadyIsAfter(s.tasks, s.current);
  }

  // ---------------------------------------------------------------- who wakes a blocked task

  /** A blocked task is unblocked by a step exactly when a message is sent to it. */
  lemma WokenIff(s: System, e: Event, i: nat)
    requires Inv(s) && Possible(s, e) && i < |s.tasks| && s.tasks[i].blocked
    ensures i < |Step(s, e).tasks|
    ensures !Step(s, e).tasks[i].blocked <==> SentNow(s, e, i) != []
    ensures Step(s, e).tasks[i].blocked ==> Step(s, e).tasks[i] == s.tasks[i]
  {
    StepTasks(s, e);
    SentIsDelivered(s, e, i);
  }

  /** In no step of the run a message is sent to task `i`. */
  predicate NeverAddressed(s: System, es: seq<Event>, i: nat)
    requires Legal(s, es)
    decreases |es|
  {
    es == [] || (SentNow(s, es[0], i) == [] && NeverAddressed(Step(s, es[0]), es[1..], i))
  }

  /** A blocked task sleeps on, in the same kernel call, through every run in which nobody sends to it. Whatever its
      receiver takes out of a full buffer, a sender blocked on that buffer is not woken by it. */
  lemma {:induction false} SleepsUntilAddressed(s: System, es: seq<Event>, i: nat)
    requires Inv(s) && Legal(s, es) && i < |s.tasks| && s.tasks[i].blocked && NeverAddressed(s, es, i)
    ensures i < |Run(s, es).tasks| && Run(s, es).tasks[i] == s.tasks[i]
    decreases |es|
  {
    hide Inv, Step, TaskAfter;
    if es != [] {
      WokenIff(s, es[0], i);
      StepKeepsInv(s, es[0]);
      SleepsUntilAddressed(Step(s, es[0]), es[1..], i);
    }
  }

  /** Once every user task is blocked, nothing but a new task changes the system again. */
  lemma {:induction false} AllBlockedForever(s: System, es: seq<Event>)
    requires Inv(s) && Legal(s, es) && s.current == 0 && Spawn !in es
    requires forall i :: 0 <= i < |s.tasks| ==> s.tasks[i].blocked
    ensures Run(s, es) == s
    decreases |es|
  {
    if es != [] {
      assert es[0] == Tick;
      assert NextReady(s.tasks, 0) == 0 by {
        NextReadyIsFirst(s.tasks, 0, 0);
      }
      AllBlockedForever(s, es[1..]);
    }
  }

  /** Such a state is reached with buffers of one message: a sender blocks on a full buffer, the receiver empties it and
      blocks for more, and the message of the sender is never pushed. */
  lemma SenderAndReceiverBothBlock()
    ensures var es := [Spawn, Spawn, Tick, Send(1, 5), Send(1, 6), Receive, Receive];
            && Legal(Boot(1), es)
            && var s := Run(Boot(1), es);
               && s.current == 0 && |s.tasks| == 2 && s.tasks[0].blocked && s.tasks[1].blocked
               && s.tasks[0].status == Sending(1, Message(0, 1, 6)) && s.tasks[1].inbox.count == 0
  {
    hide Run, Legal;
    var a, b := FirstTask(), SecondTask();
    TwoTasksStart();
    SendFillsTheBuffer();
    SendBlocks();
    ReceiveDrainsAndBlocks();
    RunNone(Both(Asleep(a), Emptied(b).(blocked := true, status := Receiving), 0));
    RunOne(Both(Asleep(a), Emptied(b), 2), [Receive]);
    RunOne(Both(Asleep(a), Filled(b), 2), [Receive, Receive]);
    RunOne(Both(a, Filled(b), 1), [Send(1, 6), Receive, Receive]);
    RunOne(Both(a, b, 1), [Send(1, 5), Send(1, 6), Receive, Receive]);
    RunOne(Both(a, b, 0), [Tick, Send(1, 5), Send(1, 6), Receive, Receive]);
    RunOne(System([a], 0, 1, 1), [Spawn, Tick, Send(1, 5), Send(1, 6), Receive, Receive]);
    RunOne(Boot(1), [Spawn, Spawn, Tick, Send(1, 5), Send(1, 6), Receive, Receive]);
  }

  function FirstTask(): Task {
    Task(0, false, Running, NewQueue(1))
  }

  function SecondTask(): Task {
    Task(1, false, Running, NewQueue(1))
  }

  function Filled(b: Task): Task {
    b.(inbox := Queue(0, 0, 1, [Message(0, 1, 5)]))
  }

  function Emptied(b: Task): Task {
    b.(inbox := Queue(1, 0, 0, [Message(0, 1, 5)]))
  }

  function Asleep(a: Task): Task {
    a.(blocked := true, status := Sending(1, Message(0, 1, 6)))
  }

  function Both(a: Task, b: Task, current: nat): System {
    System([a, b], current, 2, 1)
  }

  lemma TwoTasksStart()
    ensures Possible(Boot(1), Spawn) && Step(Boot(1), Spawn) == System([FirstTask()], 0, 1, 1)
    ensures Possible(System([FirstTask()], 0, 1, 1), Spawn)
    ensures Step(System([FirstTask()], 0, 1, 1), Spawn) == Both(FirstTask(), SecondTask(), 0)
    ensures Possible(Both(FirstTask(), SecondTask(), 0), Tick)
    ensures Step(Both(FirstTask(), SecondTask(), 0), Tick) == Both(FirstTask(), SecondTask(), 1)
  {
    assert [FirstTask()] + [SecondTask()] == [FirstTask(), SecondTask()];
  }

  lemma SendFillsTheBuffer()
    ensures var s := Both(FirstTask(), SecondTask(), 1);
            Possible(s, Send(1, 5)) && Step(s, Send(1, 5)) == Both(FirstTask(), Filled(SecondTask()), 1)
  {
    var s := Both(FirstTask(), SecondTask(), 1);
    FindAt(s.tasks, 1);
    DeliverIs(s, 1, Message(0, 1, 5));
    assert Pushed(NewQueue(1), Message(0, 1, 5)) == Filled(SecondTask()).inbox;
  }

  lemma SendBlocks()
    ensures var s := Both(FirstTask(), Filled(SecondTask()), 1);
            Possible(s, Send(1, 6)) && Step(s, Send(1, 6)) == Both(Asleep(FirstTask()), Filled(SecondTask()), 2)
  {
    var s := Both(FirstTask(), Filled(SecondTask()), 1);
    FindAt(s.tasks, 1);
    BlockMeIs(s, Sending(1, Message(0, 1, 6)));
  }

  lemma ReceiveDrainsAndBlocks()
    ensures var s := Both(Asleep(FirstTask()), Filled(SecondTask()), 2);
            Possible(s, Receive) && Step(s, Receive) == Both(Asleep(FirstTask()), Emptied(SecondTask()), 2)
    ensures var s := Both(Asleep(FirstTask()), Emptied(SecondTask()), 2);
            Possible(s, Receive)
            && Step(s, Receive) == Both(Asleep(FirstTask()),
                Emptied(SecondTask()).(blocked := true, status := Receiving), 0)
  {
    BlockMeIs(Both(Asleep(FirstTask()), Emptied(SecondTask()), 2), Receiving);
  }

  lemma FindAt(tasks: seq<Task>, pid: nat)
    requires |tasks| == 2 && tasks[0].pid == 0 && tasks[1].pid == 1 && pid < 2
    ensures Find(tasks, pid) == pid
  {
    FindByPid(tasks, pid);
  }

  lemma RunNone(s: System)
    ensures Legal(s, []) && Run(s, []) == s
  {
  }

  lemma RunOne(s: System, es: seq<Event>)
    requires es != [] && Shaped(s) && Enabled(s, es[0]) && (es[0].Spawn? ==> |s.tasks| < PIDS)
             && Legal(Step(s, es[0]), es[1..])
    ensures Legal(s, es) && Run(s, es) == Run(Step(s, es[0]), es[1..])
  {
  }

  // ---------------------------------------------------------------- fairness

  /** task_switch stops at the first ready task after the current one in ring order. */
  lemma {:induction false} NextReadyIsFirst(tasks: seq<Task>, i: nat, j: nat)
    requires i <= |tasks| && j <= |tasks| && Ready(tasks, j)
    ensures Ahead(i, NextReady(tasks, i), |tasks| + 1) <= Ahead(i, j, |tasks| + 1)
    decreases |tasks| - i
  {
    var k := if i == |tasks| then 0 else i + 1;
    if !Ready(tasks, k) {
      NextReadyIsFirst(tasks, k, j);
    }
  }

  /** How many places ahead of `i` the place `j` is in a ring of `n`, counted from 1 to `n`. */
  function Ahead(i: nat, j: nat, n: nat): (r: nat)
    requires i < n && j < n
    ensures 1 <= r <= n && (i + r == j || i + r == j + n)
  {
    if i < j then j - i else j + n - i
  }

  predicate ReadyThroughout(s: System, es: seq<Event>, t: nat)
    requires Legal(s, es)
    decreases |es|
  {
    && t <= |s.tasks| && Ready(s.tasks, t)
    && (es == [] || ReadyThroughout(Step(s, es[0]), es[1..], t))
  }

  /** The task switches: ticks, and steps in which the running task comes to be blocked. */
  predicate SwitchNow(s: System, e: Event)
    requires Possible(s, e)
  {
    e.Tick? || (0 < s.current <= |Step(s, e).tasks| && Step(s, e).tasks[s.current - 1].blocked)
  }

  lemma SwitchIs(s: System, e: Event)
    requires Inv(s) && Possible(s, e)
    ensures SwitchNow(s, e) <==> Switches(s, e)
  {
    hide Step, NextReady, Find;
    StepTasks(s, e);
    InvPids(s);
    FindByPid(s.tasks, if e.Send? then e.dst else 0);
  }

  /** The number of task switches in the run. */
  function SwitchCount(s: System, es: seq<Event>): nat
    requires Legal(s, es)
    decreases |es|
  {
    if es == [] then 0
    else (if SwitchNow(s, es[0]) then 1 else 0) + SwitchCount(Step(s, es[0]), es[1..])
  }

  function SpawnCount(es: seq<Event>): nat {
    if es == [] then 0 else (if es[0].Spawn? then 1 else 0) + SpawnCount(es[1..])
  }

  /** Some task switch of the run goes to the ring position `t`. */
  predicate Dispatched(s: System, es: seq<Event>, t: nat)
    requires Legal(s, es)
    decreases |es|
  {
    es != [] &&
    ((SwitchNow(s, es[0]) && Step(s, es[0]).current == t) || Dispatched(Step(s, es[0]), es[1..], t))
  }

  /** A switch that passes over a ready task comes nearer to it; a spawn puts one more task in between at most. */
  lemma AheadAfter(s: System, e: Event, t: nat)
    requires Inv(s) && Possible(s, e) && t <= |s.tasks|
    requires t <= |Step(s, e).tasks| && Ready(Step(s, e).tasks, t)
    ensures Step(s, e).current <= |Step(s, e).tasks|
    ensures var before := Ahead(s.current, t, |s.tasks| + 1);
            var after := Ahead(Step(s, e).current, t, |Step(s, e).tasks| + 1);
            if SwitchNow(s, e) then Step(s, e).current == t || after < before
            else after <= before + if e.Spawn? then 1 else 0
  {
    hide Inv, Step, TaskAfter, Ready, NextReady, SwitchNow;
    StepTasks(s, e);
    StepCurrent(s, e);
    SwitchIs(s, e);
    if Switches(s, e) {
      NextReadyIsFirst(Step(s, e).tasks, s.current, t);
    }
  }

  lemma {:induction false} UndispatchedFor(s: System, es: seq<Event>, t: nat)
    requires Inv(s) && Legal(s, es) && ReadyThroughout(s, es, t) && !Dispatched(s, es, t)
    ensures s.current <= |s.tasks| && SwitchCount(s, es) < Ahead(s.current, t, |s.tasks| + 1) + SpawnCount(es)
    decreases |es|
  {
    hide Step, Ready, Ahead, SwitchNow;
    if es != [] {
      StepKeepsInv(s, es[0]);
      assert ReadyThroughout(Step(s, es[0]), es[1..], t);
      AheadAfter(s, es[0], t);
      UndispatchedFor(Step(s, es[0]), es[1..], t);
    }
  }

  /** A task that stays unblocked is dispatched within as many switches as the ring is long, and one more for each task
      created meanwhile. */
  lemma BoundedFairness(s: System, es: seq<Event>, t: nat)
    requires Inv(s) && Legal(s, es) && ReadyThroughout(s, es, t)
    requires SwitchCount(s, es) >= |s.tasks| + 1 + SpawnCount(es)
    ensures Dispatched(s, es, t)
  {
    if !Dispatched(s, es, t) {
      UndispatchedFor(s, es, t);
    }
  }

  // ---------------------------------------------------------------- delivery in order

  /** The messages sent to task `i` in the run, in order. */
  function SentTo(s: System, es: seq<Event>, i: nat): seq<Message>
    requires Legal(s, es)
    decreases |es|
  {
    if es == [] then []
    else SentNow(s, es[0], i) + SentTo(Step(s, es[0]), es[1..], i)
  }

  /** The messages that the receives and polls of task `i` answer in the run, in order. */
  function AnsweredTo(s: System, es: seq<Event>, i: nat): seq<Message>
    requires Legal(s, es)
    decreases |es|
  {
    if es == [] then []
    else AnsweredNow(s, es[0], i) + AnsweredTo(Step(s, es[0]), es[1..], i)
  }

  function AnsweredNow(s: System, e: Event, i: nat): seq<Message>
    requires Possible(s, e)
  {
    if s.current == i + 1 && Answer(s, e).Got? then [Answer(s, e).msg] else []
  }

  /** In no step of the run is the buffer of `i` full when a message is sent to it, and each message it reads is inside
      the buffer. */
  predicate Orderly(s: System, es: seq<Event>, i: nat)
    requires Legal(s, es)
    decreases |es|
  {
    es == [] || (OrderlyNow(s, es[0], i) && Orderly(Step(s, es[0]), es[1..], i))
  }

  predicate OrderlyNow(s: System, e: Event, i: nat)
    requires Possible(s, e)
  {
    && RoomNow(s, e, i) && (s.current == i + 1 ==> Answer(s, e) != OutOfBounds)
  }

  predicate RoomNow(s: System, e: Event, i: nat)
    requires Possible(s, e)
  {
    SentNow(s, e, i) != [] && i < |s.tasks| ==> s.tasks[i].inbox.count < |s.tasks[i].inbox.slots|
  }

  /** The buffer of `i` holds what was pushed less what was taken, the oldest first. A task yet to come has none of
      either. */
  ghost predicate Queued(s: System, i: nat, pushed: seq<Message>, taken: seq<Message>) {
    if i < |s.tasks| then taken <= pushed && Fifo(s.tasks[i].inbox, pushed, |taken|) else pushed == taken == []
  }

  lemma StepQueued(s: System, e: Event, i: nat, pushed: seq<Message>, taken: seq<Message>)
    requires Inv(s) && Possible(s, e) && OrderlyNow(s, e, i) && Queued(s, i, pushed, taken)
    ensures Queued(Step(s, e), i, pushed + SentNow(s, e, i),
            taken + AnsweredNow(s, e, i))
  {
    hide Find, Remainder, Step;
    StepTasks(s, e);
    SentIsDelivered(s, e, i);
    if i < |s.tasks| {
      var q := s.tasks[i].inbox;
      if Addressee(s, e) == i {
        PushAppendsIff(q, pushed, |taken|, Delivered(s, e));
      } else if s.current == i + 1 && Pops(s, e) && q.count > 0 {
        PopTakesOldestIff(q, pushed, |taken|);
      }
    } else if i == |s.tasks| && e.Spawn? {
      SpawnQueued(s);
    }
  }

  lemma SpawnQueued(s: System)
    requires Inv(s) && Shaped(s) && Enabled(s, Spawn)
    ensures Fifo(Step(s, Spawn).tasks[|s.tasks|].inbox, [], 0)
  {
    assert Remainder(0, s.capacity) == 0;
  }

  lemma {:induction false} RunQueued(s: System, es: seq<Event>, i: nat, pushed: seq<Message>, taken: seq<Message>)
    requires Inv(s) && Legal(s, es) && Orderly(s, es, i) && Queued(s, i, pushed, taken)
    ensures Queued(Run(s, es), i, pushed + SentTo(s, es, i), taken + AnsweredTo(s, es, i))
    decreases |es|
  {
    hide Inv, Step, Queued, OrderlyNow, AnsweredNow;
    if es == [] {
      assert pushed + [] == pushed && taken + [] == taken;
    } else {
      var p, t := SentNow(s, es[0], i), AnsweredNow(s, es[0], i);
      StepQueued(s, es[0], i, pushed, taken);
      StepKeepsInv(s, es[0]);
      var next := Step(s, es[0]);
      RunQueued(next, es[1..], i, pushed + p, taken + t);
      assert pushed + p + SentTo(next, es[1..], i) == pushed + (p + SentTo(next, es[1..], i));
      assert taken + t + AnsweredTo(next, es[1..], i) == taken + (t + AnsweredTo(next, es[1..], i));
    }
  }

  /** In no step of the run is the buffer of `i` full when a message is sent to it. */
  predicate NeverSentWhenFull(s: System, es: seq<Event>, i: nat)
    requires Legal(s, es)
    decreases |es|
  {
    es == [] ||
    (RoomNow(s, es[0], i) && NeverSentWhenFull(Step(s, es[0]), es[1..], i))
  }

  /** How often task `i` is answered something else than null in the run. */
  function AnswerCount(s: System, es: seq<Event>, i: nat): nat
    requires Legal(s, es)
    decreases |es|
  {
    if es == [] then 0
    else (if AnsweredSome(s, es[0], i) then 1 else 0) + AnswerCount(Step(s, es[0]), es[1..], i)
  }

  predicate AnsweredSome(s: System, e: Event, i: nat)
    requires Possible(s, e)
  {
    s.current == i + 1 && Answer(s, e) != Empty
  }

  lemma AnswerInside(s: System, e: Event, i: nat, pushed: seq<Message>, taken: seq<Message>)
    requires Inv(s) && Possible(s, e) && Queued(s, i, pushed, taken)
    requires |taken| + (if AnsweredSome(s, e, i) then 1 else 0) <= s.capacity
    requires RoomNow(s, e, i)
    ensures OrderlyNow(s, e, i)
    ensures |AnsweredNow(s, e, i)| == if AnsweredSome(s, e, i) then 1 else 0
  {
    if s.current == i + 1 {
      assert TaskOk(s, i);
    }
  }

  /** The head leaves the buffer only after as many pops as there are slots. */
  lemma {:induction false} FewAnswersAreOrderly(s: System, es: seq<Event>, i: nat, pushed: seq<Message>,
                                             taken: seq<Message>)
    requires Inv(s) && Legal(s, es) && NeverSentWhenFull(s, es, i) && Queued(s, i, pushed, taken)
    requires |taken| + AnswerCount(s, es, i) <= s.capacity
    ensures Orderly(s, es, i)
    decreases |es|
  {
    hide Inv, Step, Queued, OrderlyNow, AnsweredNow, AnsweredSome;
    if es != [] {
      AnswerInside(s, es[0], i, pushed, taken);
      StepQueued(s, es[0], i, pushed, taken);
      StepKeepsInv(s, es[0]);
      StepTasks(s, es[0]);
      FewAnswersAreOrderly(Step(s, es[0]), es[1..], i,
                        pushed + SentNow(s, es[0], i),
                        taken + AnsweredNow(s, es[0], i));
    }
  }

  /** Over any run of the whole system in which no message is sent to task `i` when its buffer is full, and which
      answers no more messages to it than its buffer has slots, the answers of its receives and polls are the messages
      sent to it, in the order they were sent and each once, and the ones not answered yet are those in its buffer. */
  lemma DeliveredInOrder(capacity: nat, es: seq<Event>, i: nat)
    requires 0 < capacity <= 0x7FFF && Legal(Boot(capacity), es)
    requires NeverSentWhenFull(Boot(capacity), es, i) && AnswerCount(Boot(capacity), es, i) <= capacity
    ensures var s := Run(Boot(capacity), es);
            var sent, answers := SentTo(Boot(capacity), es, i), AnsweredTo(Boot(capacity), es, i);
            && answers <= sent
            && (i < |s.tasks| ==>
                  && Fifo(s.tasks[i].inbox, sent, |answers|)
                  && s.tasks[i].inbox.count == |sent| - |answers|)
            && (i >= |s.tasks| ==> sent == [])
  {
    BootInv(capacity);
    FewAnswersAreOrderly(Boot(capacity), es, i, [], []);
    RunQueued(Boot(capacity), es, i, [], []);
    assert [] + SentTo(Boot(capacity), es, i) == SentTo(Boot(capacity), es, i);
    assert [] + AnsweredTo(Boot(capacity), es, i) == AnsweredTo(Boot(capacity), es, i);
  }
}
