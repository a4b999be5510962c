/** Blocking message passing between the tasks of the ring, one step for each section that runs with interrupts off
    (module/message/main.c, module/tasking/main.c, module/user/main.c). */
module Ipc {
  import opened MessageQueue

  /** Pids are 32-bit. */
  const PIDS := 0x1_0000_0000

  datatype Message = Message(src: nat, dst: nat, data: int)

  /** Where the kernel call of a task that is not running was left: nowhere, inside message_async_recv after the
      tick, or inside message_async_send after the tick, where the buffer to push to is already found. */
  datatype Status = Running | Receiving | Sending(to: nat, msg: Message)

  datatype Task = Task(pid: nat, blocked: bool, status: Status, inbox: Queue<Message>)

  /** Ring position 0 is the bootstrap task, which is no user task; position `i + 1` is `tasks[i]`. */
  datatype System = System(tasks: seq<Task>, current: nat, nextPid: nat, capacity: nat)

  datatype Event = Tick | Send(dst: nat, data: int) | Receive | Poll | Resume | Spawn

  function NewQueue(capacity: nat): Queue<Message> {
    Queue(0, 0, 0, seq(capacity, _ => Message(0, 0, 0)))
  }

  /** tasking_init and user_init */
  function Boot(capacity: nat): System {
    System([], 0, 0, capacity)
  }

  predicate Ready(tasks: seq<Task>, i: nat)
    requires i <= |tasks|
  {
    i == 0 || !tasks[i - 1].blocked
  }

  /** task_switch: the ring position it ends at. The bootstrap task stops the recursion. */
  function NextReady(tasks: seq<Task>, i: nat): (r: nat)
    requires i <= |tasks|
    ensures r <= |tasks| && Ready(tasks, r)
    decreases |tasks| - i
  {
    var j := if i == |tasks| then 0 else i + 1;
    if Ready(tasks, j) then j else NextReady(tasks, j)
  }

  function Switch(s: System): System
    requires s.current <= |s.tasks|
  {
    s.(current := NextReady(s.tasks, s.current))
  }

  /** user_find: the first task with the pid, or -1. */
  function Find(tasks: seq<Task>, pid: nat): (r: int)
    ensures -1 <= r < |tasks| && (r >= 0 ==> tasks[r].pid == pid)
  {
    if tasks == [] then -1
    else if tasks[0].pid == pid then 0
    else
      var r := Find(tasks[1..], pid);
      if r < 0 then -1 else r + 1
  }

  /** user_block and user_awake */
  function SetBlocked(s: System, pid: nat, blocked: bool): System {
    var i := Find(s.tasks, pid);
    if i < 0 then s else s.(tasks := s.tasks[i := s.tasks[i].(blocked := blocked)])
  }

  /** The last part of message_async_send. */
  function Deliver(s: System, d: nat, msg: Message): System
    requires d < |s.tasks| && Shape(s.tasks[d].inbox)
  {
    var pushed := s.(tasks := s.tasks[d := s.tasks[d].(inbox := Pushed(s.tasks[d].inbox, msg))]);
    SetBlocked(pushed, msg.dst, false)
  }

  predicate Shaped(s: System) {
    && s.current <= |s.tasks|
    && forall i :: 0 <= i < |s.tasks| ==>
                     Shape(s.tasks[i].inbox) && (s.tasks[i].status.Sending? ==> s.tasks[i].status.to < |s.tasks|)
  }

  /** The user task that runs. */
  function Me(s: System): Task
    requires 0 < s.current <= |s.tasks|
  {
    s.tasks[s.current - 1]
  }

  function WithMe(s: System, t: Task): System
    requires 0 < s.current <= |s.tasks|
  {
    s.(tasks := s.tasks[s.current - 1 := t])
  }

  /** Between its own steps the current task runs; a resumed one first finishes its kernel call. */
  predicate Enabled(s: System, e: Event)
    requires Shaped(s)
  {
    match e
    case Tick => s.current == 0 || Me(s).status.Running?
    case Spawn => s.current == 0 || Me(s).status.Running?
    case Resume => s.current > 0 && !Me(s).status.Running?
    case _ => s.current > 0 && Me(s).status.Running?
  }

  predicate Possible(s: System, e: Event) {
    Shaped(s) && Enabled(s, e)
  }

  /** The message a send puts together. */
  function Outgoing(s: System, e: Event): Message
    requires Possible(s, e) && e.Send?
  {
    Message(Me(s).pid, e.dst, e.data)
  }

  /** The task whose buffer the step pushes to, or -1. */
  function Addressee(s: System, e: Event): (r: int)
    requires Possible(s, e)
    ensures -1 <= r < |s.tasks|
  {
    match e
    case Send(dst, _) =>
      var d := Find(s.tasks, dst);
      if d >= 0 && s.tasks[d].inbox.count < |s.tasks[d].inbox.slots| then d else -1
    case Resume => if Me(s).status.Sending? then Me(s).status.to else -1
    case _ => -1
  }

  /** The message pushed, where the step pushes one. */
  function Delivered(s: System, e: Event): Message
    requires Possible(s, e) && Addressee(s, e) >= 0
  {
    if e.Send? then Outgoing(s, e) else Me(s).status.msg
  }

  /** Whether the current task gives up the processor in the step. */
  predicate Switches(s: System, e: Event)
    requires Possible(s, e)
  {
    match e
    case Tick => true
    case Send(dst, _) => Find(s.tasks, dst) >= 0 && Addressee(s, e) < 0
    case Receive => Me(s).inbox.count == 0
    case _ => false
  }

  /** Whether the current task pops its buffer in the step. */
  predicate Pops(s: System, e: Event)
    requires Possible(s, e)
  {
    match e
    case Receive => Me(s).inbox.count > 0
    case Poll => true
    case Resume => Me(s).status.Receiving?
    case _ => false
  }

  /** What a receive or a poll answers, in the step in which it ends. */
  function Answer(s: System, e: Event): Popped<Message>
    requires Possible(s, e)
  {
    match e
    case Receive => First(Me(s).inbox)
    case Poll => First(Me(s).inbox)
    case Resume => if Me(s).status.Receiving? then First(Me(s).inbox) else Empty
    case _ => Empty
  }

  /** What is sent to task `i` in the step, for pids that are positions: a message that finds room in its buffer, or the
      message of a sender that had blocked and goes on. */
  function SentNow(s: System, e: Event, i: nat): seq<Message>
    requires Possible(s, e)
  {
    match e
    case Send(dst, data) =>
      if dst == i < |s.tasks| && s.tasks[i].inbox.count < |s.tasks[i].inbox.slots| then
        [Message(s.current - 1, i, data)]
      else []
    case Resume => if Me(s).status.Sending? && Me(s).status.msg.dst == i then [Me(s).status.msg] else []
    case _ => []
  }

  function Step(s: System, e: Event): System
    requires Possible(s, e)
  {
    match e
    case Tick => Switch(s)
    case Send(_, _) =>
      if Addressee(s, e) >= 0 then Deliver(s, Addressee(s, e), Outgoing(s, e))
      else if Switches(s, e) then
        Switch(SetBlocked(WithMe(s, Me(s).(status := Sending(Find(s.tasks, e.dst), Outgoing(s, e)))), Me(s).pid, true))
      else s
    case Receive =>
      if Switches(s, e) then Switch(SetBlocked(WithMe(s, Me(s).(status := Receiving)), Me(s).pid, true))
      else WithMe(s, Me(s).(inbox := Rest(Me(s).inbox)))
    case Poll => WithMe(s, Me(s).(inbox := Rest(Me(s).inbox)))
    case Resume =>
      if Me(s).status.Receiving? then WithMe(s, Me(s).(status := Running, inbox := Rest(Me(s).inbox)))
      else Deliver(WithMe(s, Me(s).(status := Running)), Addressee(s, e), Me(s).status.msg)
    case Spawn =>
      s.(tasks := s.tasks + [Task(s.nextPid, false, Running, NewQueue(s.capacity))], nextPid := (s.nextPid + 1) % PIDS)
  }

  // ---------------------------------------------------------------- the invariant

  /** A task blocked in a receive has nothing to read; one that was woken from it has a message. */
  predicate TaskOk(s: System, i: nat)
    requires i < |s.tasks|
  {
    var t := s.tasks[i];
    && t.pid == i && Shape(t.inbox) && |t.inbox.slots| == s.capacity
    && (t.blocked ==> !t.status.Running?)
    && (t.status.Receiving? ==> (t.blocked <==> t.inbox.count == 0))
    && (t.status.Sending? ==> t.status.msg.src == i && t.status.to == t.status.msg.dst < |s.tasks|)
  }

  ghost predicate Inv(s: System) {
    && 0 < s.capacity <= 0x7FFF
    && |s.tasks| <= PIDS && s.nextPid == |s.tasks| % PIDS
    && s.current <= |s.tasks| && Ready(s.tasks, s.current)
    && forall i :: 0 <= i < |s.tasks| ==> TaskOk(s, i)
  }

  lemma BootInv(capacity: nat)
    requires 0 < capacity <= 0x7FFF
    ensures Inv(Boot(capacity)) && Shaped(Boot(capacity))
  {
  }

  /** While every pid is the task's position, looking one up finds that task only. */
  lemma {:induction false} FindFrom(tasks: seq<Task>, k: nat, pid: nat)
    requires k <= |tasks| && forall i :: 0 <= i < |tasks| ==> tasks[i].pid == i
    ensures Find(tasks[k..], pid) == if k <= pid < |tasks| then pid - k else -1
    decreases |tasks| - k
  {
    if k < |tasks| {
      assert tasks[k..][1..] == tasks[k + 1..];
      FindFrom(tasks, k + 1, pid);
    }
  }

  lemma FindByPid(tasks: seq<Task>, pid: nat)
    requires forall i :: 0 <= i < |tasks| ==> tasks[i].pid == i
    ensures Find(tasks, pid) == if pid < |tasks| then pid else -1
  {
    FindFrom(tasks, 0, pid);
    assert tasks[0..] == tasks;
  }

  lemma InvPids(s: System)
    requires Inv(s)
    ensures Shaped(s) && forall i :: 0 <= i < |s.tasks| ==> s.tasks[i].pid == i
    ensures forall i :: 0 <= i < |s.tasks| && s.tasks[i].status.Sending? ==>
                          s.tasks[i].status.to == s.tasks[i].status.msg.dst < |s.tasks|
  {
    forall i | 0 <= i < |s.tasks|
      ensures Shape(s.tasks[i].inbox) && s.tasks[i].pid == i
      ensures s.tasks[i].status.Sending? ==> s.tasks[i].status.to == s.tasks[i].status.msg.dst < |s.tasks|
    {
      assert TaskOk(s, i);
    }
  }

  /** What a step does to the tasks, pids being unique: the current one, the addressee and a new one at most. */
  function TaskAfter(s: System, e: Event, i: nat): Task
    requires Possible(s, e) && i < |s.tasks|
  {
    var t := s.tasks[i];
    var mine := i + 1 == s.current;
    var own :=
      if !mine then t
      else if Pops(s, e) then t.(status := Running, inbox := Rest(t.inbox))
      else if Switches(s, e) && e.Receive? then t.(status := Receiving, blocked := true)
      else if Switches(s, e) && e.Send? then t.(status := Sending(Find(s.tasks, e.dst), Outgoing(s, e)),
          blocked := true)
      else t.(status := Running);
    if i == Addressee(s, e) then own.(inbox := Pushed(t.inbox, Delivered(s, e)), blocked := false) else own
  }

  lemma StepTasks(s: System, e: Event)
    requires Inv(s) && Possible(s, e)
    ensures var r := Step(s, e);
            && |r.tasks| == (if e.Spawn? then |s.tasks| + 1 else |s.tasks|)
            && r.capacity == s.capacity
            && r.nextPid == (if e.Spawn? then (s.nextPid + 1) % PIDS else s.nextPid)
            && forall i :: 0 <= i < |s.tasks| ==> r.tasks[i] == TaskAfter(s, e, i)
  {
    hide NextReady, Find, Pushed, Rest, Inv, Shape;
    InvPids(s);
    match e
    case Send(dst, _) =>
      FindByPid(s.tasks, dst);
      if Addressee(s, e) >= 0 {
        DeliverIs(s, dst, Outgoing(s, e));
      } else if Switches(s, e) {
        BlockMeIs(s, Sending(dst, Outgoing(s, e)));
      }
    case Receive =>
      if Switches(s, e) {
        BlockMeIs(s, Receiving);
      }
    case Resume =>
      if Me(s).status.Sending? {
        DeliverIs(WithMe(s, Me(s).(status := Running)), Addressee(s, e), Me(s).status.msg);
      }
    case _ =>
  }

  lemma SentIsDelivered(s: System, e: Event, i: nat)
    requires Inv(s) && Possible(s, e)
    ensures SentNow(s, e, i) == if Addressee(s, e) == i then [Delivered(s, e)] else []
    ensures SentNow(s, e, i) != [] ==> i < |s.tasks|
  {
    InvPids(s);
    FindByPid(s.tasks, if e.Send? then e.dst else 0);
  }

  lemma DeliverIs(s: System, d: nat, msg: Message)
    requires forall i :: 0 <= i < |s.tasks| ==> s.tasks[i].pid == i
    requires d < |s.tasks| && Shape(s.tasks[d].inbox) && msg.dst == d
    ensures Deliver(s, d, msg)
         == s.(tasks := s.tasks[d := s.tasks[d].(inbox := Pushed(s.tasks[d].inbox, msg), blocked := false)])
  {
    var pushed := s.tasks[d := s.tasks[d].(inbox := Pushed(s.tasks[d].inbox, msg))];
    FindByPid(pushed, d);
  }

  lemma BlockMeIs(s: System, status: Status)
    requires 0 < s.current <= |s.tasks| && forall i :: 0 <= i < |s.tasks| ==> s.tasks[i].pid == i
    ensures SetBlocked(WithMe(s, Me(s).(status := status)), Me(s).pid, true)
         == WithMe(s, Me(s).(status := status, blocked := true))
  {
    FindByPid(WithMe(s, Me(s).(status := status)).tasks, Me(s).pid);
  }

  /** Only a blocked send or receive, or a tick, moves on in the ring. */
  lemma StepCurrent(s: System, e: Event)
    requires Inv(s) && Possible(s, e)
    ensures Step(s, e).current == (if Switches(s, e) then NextReady(Step(s, e).tasks, s.current) else s.current)
    ensures Step(s, e).current <= |Step(s, e).tasks| && Ready(Step(s, e).tasks, Step(s, e).current)
  {
    hide Find, Pushed, Rest, Shape, TaskOk;
    StepTasks(s, e);
  }

  lemma TaskAfterOk(s: System, e: Event, i: nat)
    requires Inv(s) && Possible(s, e) && i < |s.tasks|
    ensures TaskOk(Step(s, e), i)
  {
    hide Step, NextReady, Find;
    StepTasks(s, e);
    assert TaskOk(s, i);
    assert s.current > 0 ==> TaskOk(s, s.current - 1);
    InvPids(s);
    FindByPid(s.tasks, if e.Send? then e.dst else 0);
  }

  lemma StepKeepsInv(s: System, e: Event)
    requires Inv(s) && Possible(s, e) && (e.Spawn? ==> |s.tasks| < PIDS)
    ensures Inv(Step(s, e)) && Shaped(Step(s, e))
  {
    hide TaskOk, NextReady, Find, Pushed, Rest;
    var r := Step(s, e);
    StepTasks(s, e);
    StepCurrent(s, e);
    forall i | 0 <= i < |r.tasks|
      ensures TaskOk(r, i)
    {
      if i < |s.tasks| {
        TaskAfterOk(s, e, i);
      } else {
        NewTaskOk(s);
      }
    }
    InvPids(r);
  }

  lemma NewTaskOk(s: System)
    requires Inv(s) && Shaped(s) && (s.current == 0 || Me(s).status.Running?) && |s.tasks| < PIDS
    ensures TaskOk(Step(s, Spawn), |s.tasks|)
  {
  }
}
