/** The ring of tasks, the table of user tasks and the message calls over them
    (module/tasking/main.c, module/user/main.c, module/message/main.c). */
module Tasking {
  import List
  import opened MessageQueue
  import Ipc

  /** task_t, without the processor state that a dispatch loads. */
  class Task {
    var blocked: bool
    var parent: UserTask?

    constructor ()
      ensures !blocked && parent == null
    {
      blocked, parent := false, null;
    }
  }

  /** user_task_t. `status` stands for the instruction pointer saved in the task: where its kernel call goes on. */
  class UserTask {
    const pid: nat
    const task: Task
    const recvbuf: MessageBuffer<Ipc.Message>
    ghost var status: Ipc.Status

    constructor (pid: nat, task: Task, recvbuf: MessageBuffer<Ipc.Message>)
      ensures this.pid == pid && this.task == task && this.recvbuf == recvbuf && status == Ipc.Running
    {
      this.pid, this.task, this.recvbuf := pid, task, recvbuf;
      status := Ipc.Running;
    }

    ghost function State(): Ipc.Task
      reads this, task, recvbuf, recvbuf.buffer
    {
      Ipc.Task(pid, task.blocked, status, recvbuf.State())
    }
  }

  class Kernel {
    const capacity: nat
    const boot: Task
    const order: List.List<Task>
    const users: List.List<UserTask>
    var current: List.ListNode<Task>
    var nextPid: nat
    var enabled: bool
    ghost var position: nat
    ghost var tasks: seq<UserTask>

    /** The ring holds the bootstrap task and the tasks of the users in the order of the table. */
    ghost predicate Ring(us: seq<UserTask>)
      reads order, order.nodes
    {
      && order.Valid() && order.rnd && |order.nodes| == |us| + 1 && order.nodes[0].data == boot
      && forall i :: 0 <= i < |us| ==> order.nodes[i + 1].data == us[i].task
    }

    /** The table holds the users. */
    ghost predicate Table(us: seq<UserTask>)
      reads users, users.nodes
    {
      && users.Valid() && !users.rnd && |users.nodes| == |us|
      && forall i :: 0 <= i < |us| ==> users.nodes[i].data == us[i]
    }

    /** `current_task` is the node at ring position `position`. */
    ghost predicate At()
      reads this`current, this`position, order
    {
      position < |order.nodes| && current == order.nodes[position]
    }

    /** Each user task has a task, a buffer and slots of its own. */
    ghost predicate Owned(us: seq<UserTask>)
      reads boot, us, (set t | t in us :: t.task), (set t | t in us :: t.recvbuf), (set t | t in us :: t.recvbuf.buffer)
    {
      && !boot.blocked && boot.parent == null
      && (forall i :: 0 <= i < |us| ==> us[i].task != boot && us[i].task.parent == us[i] && us[i].recvbuf.Valid())
      && forall i, j :: 0 <= i < j < |us| ==> Separate(us[i], us[j])
    }

    static predicate Separate(t: UserTask, u: UserTask) {
      t != u && t.task != u.task && t.recvbuf != u.recvbuf && t.recvbuf.buffer != u.recvbuf.buffer
    }

    static ghost predicate Are(us: seq<UserTask>, ts: seq<Ipc.Task>)
      reads us, (set t | t in us :: t.task), (set t | t in us :: t.recvbuf), (set t | t in us :: t.recvbuf.buffer)
    {
      |ts| == |us| && forall i :: 0 <= i < |us| ==> us[i].State() == ts[i]
    }

    ghost predicate Valid()
      reads this`current, this`position, this`tasks, order, order.nodes, users, users.nodes, boot, tasks,
            (set t | t in tasks :: t.task), (set t | t in tasks :: t.recvbuf), (set t | t in tasks :: t.recvbuf.buffer)
    {
      Ring(tasks) && Table(tasks) && At() && Owned(tasks)
    }

    /** The objects are in the state `s` of the transition system. */
    ghost predicate Models(s: Ipc.System)
      reads this`position, this`nextPid, this`tasks, tasks,
            (set t | t in tasks :: t.task), (set t | t in tasks :: t.recvbuf), (set t | t in tasks :: t.recvbuf.buffer)
    {
      Are(tasks, s.tasks) && s.current == position && s.nextPid == nextPid && s.capacity == capacity
    }

    /** tasking_init and user_init */
    constructor (capacity: nat)
      ensures Valid() && Models(Ipc.Boot(capacity)) && !enabled
      ensures fresh(boot) && fresh(order) && fresh(order.nodes) && fresh(users)
    {
      this.capacity := capacity;
      var bootstrap := new Task();
      var ring := new List.List<Task>(true);
      var _ := ring.Push(bootstrap);
      var table := new List.List<UserTask>(false);
      boot, order, users := bootstrap, ring, table;
      current := ring.head;
      nextPid, enabled := 0, false;
      position, tasks := 0, [];
    }

    /** Where the ring leads from the current task. */
    lemma NextInRing()
      requires Ring(tasks) && Table(tasks) && At()
      ensures position <= |tasks| && |order.nodes| == |tasks| + 1
      ensures var next := if position == |tasks| then 0 else position + 1;
              && current.next == order.nodes[next]
              && order.nodes[next].data == if next == 0 then boot else tasks[next - 1].task
    {
      assert position < |tasks| ==> order.nodes[position].next == order.nodes[position + 1];
      assert position < |tasks| ==> order.nodes[position + 1].data == tasks[position].task;
    }

    /** The tasks on the ring are blocked as in the state modelled. */
    lemma CurrentIs(s: Ipc.System)
      requires Owned(tasks) && Are(tasks, s.tasks)
      ensures !boot.blocked && |s.tasks| == |tasks|
      ensures forall i :: 0 <= i < |tasks| ==> (tasks[i].task.blocked <==> s.tasks[i].blocked)
    {
      forall i | 0 <= i < |tasks|
        ensures tasks[i].task.blocked <==> s.tasks[i].blocked
      {
        assert tasks[i].State() == s.tasks[i];
      }
    }

    /** task_switch: it recurses past blocked tasks, and the ring ends it at the bootstrap task at the latest. */
    method TaskSwitch(ghost s: Ipc.System)
      requires Valid() && Models(s)
      modifies this`current, this`position
      ensures Valid() && Models(Ipc.Switch(s))
      decreases |tasks| - position
    {
      hide Ring, Table, Owned, Are;
      NextInRing();
      CurrentIs(s);
      current := current.next;
      position := if position == |tasks| then 0 else position + 1;
      var curr := current.data;
      if curr.blocked {
        TaskSwitch(s.(current := position));
      }
    }

    /** tasking_tick */
    method Tick(ghost s: Ipc.System)
      requires Valid() && Models(s)
      modifies this`current, this`position
      ensures Valid() && Models(if enabled then Ipc.Switch(s) else s)
    {
      if order.head == null || current.next == current || current.next == null || !enabled {
        return;
      }
      TaskSwitch(s);
    }

    /** user_find */
    method Find(id: nat, ghost s: Ipc.System) returns (utsk: UserTask?)
      requires Valid() && Models(s)
      ensures var i := Ipc.Find(s.tasks, id); utsk == if i < 0 then null else tasks[i]
    {
      var node := users.head;
      ghost var k := 0;
      while node != null
        invariant 0 <= k <= |tasks| && node == if k < |tasks| then users.nodes[k] else null
        invariant forall i :: 0 <= i < k ==> tasks[i].pid != id
        decreases |tasks| - k
      {
        utsk := node.data;
        if utsk.pid == id {
          FirstWithPid(s.tasks, id, k);
          return;
        }
        node := node.next;
        k := k + 1;
      }
      FirstWithPid(s.tasks, id, k);
      return null;
    }

    /** user_block and user_awake: they do nothing if the pid is not there. */
    method SetBlocked(id: nat, blocked: bool, ghost s: Ipc.System)
      requires Valid() && Models(s)
      modifies (set t | t in tasks :: t.task)`blocked
      ensures Valid() && Models(Ipc.SetBlocked(s, id, blocked))
    {
      hide Ring, Table, At, Owned, Are;
      SameLength(s);
      var utsk := Find(id, s);
      if utsk != null {
        SetTaskBlocked(utsk, Ipc.Find(s.tasks, id), blocked, s.tasks);
      }
    }

    lemma SameLength(s: Ipc.System)
      requires Models(s)
      ensures |s.tasks| == |tasks| && s.current == position
    {
    }

    method SetTaskBlocked(utsk: UserTask, ghost i: nat, blocked: bool, ghost ts: seq<Ipc.Task>)
      requires i < |tasks| == |ts| && utsk == tasks[i] && Owned(tasks) && Are(tasks, ts)
      modifies utsk.task`blocked
      ensures Owned(tasks) && Are(tasks, ts[i := ts[i].(blocked := blocked)])
    {
      utsk.task.blocked := blocked;
      forall j | 0 <= j < |tasks|
        ensures tasks[j].State() == ts[i := ts[i].(blocked := blocked)][j]
      {
        assert j != i ==> tasks[j].task != utsk.task;
      }
    }

    /** user_isblocked: not if the pid is not there. */
    method IsBlocked(id: nat, ghost s: Ipc.System) returns (blocked: bool)
      requires Valid() && Models(s)
      ensures var i := Ipc.Find(s.tasks, id); blocked <==> i >= 0 && s.tasks[i].blocked
    {
      var utsk := Find(id, s);
      if utsk == null {
        return false;
      }
      return utsk.task.blocked;
    }

    method PushTo(utsk: UserTask, ghost i: nat, msg: Ipc.Message, ghost ts: seq<Ipc.Task>)
      requires i < |tasks| == |ts| && utsk == tasks[i] && Owned(tasks) && Are(tasks, ts) && Shape(ts[i].inbox)
      modifies utsk.recvbuf, utsk.recvbuf.buffer
      ensures Owned(tasks) && Are(tasks, ts[i := ts[i].(inbox := Pushed(ts[i].inbox, msg))])
    {
      hide Pushed, Shape;
      assert utsk.State() == ts[i];
      var _ := utsk.recvbuf.Push(msg);
      OtherBuffers(i);
    }

    method PopFrom(utsk: UserTask, ghost i: nat, ghost ts: seq<Ipc.Task>) returns (msg: Popped<Ipc.Message>)
      requires i < |tasks| == |ts| && utsk == tasks[i] && Owned(tasks) && Are(tasks, ts) && Shape(ts[i].inbox)
      modifies utsk.recvbuf
      ensures Owned(tasks) && Are(tasks, ts[i := ts[i].(inbox := Rest(ts[i].inbox))]) && msg == First(ts[i].inbox)
    {
      hide Rest, First, Shape;
      assert utsk.State() == ts[i];
      msg := utsk.recvbuf.Pop();
      OtherBuffers(i);
    }

    lemma OtherBuffers(i: nat)
      requires i < |tasks| && forall j, k :: 0 <= j < k < |tasks| ==> Separate(tasks[j], tasks[k])
      ensures forall j :: 0 <= j < |tasks| && j != i ==>
                            tasks[j].recvbuf != tasks[i].recvbuf && tasks[j].recvbuf.buffer != tasks[i].recvbuf.buffer
    {
      forall j | 0 <= j < |tasks| && j != i
        ensures tasks[j].recvbuf != tasks[i].recvbuf && tasks[j].recvbuf.buffer != tasks[i].recvbuf.buffer
      {
        assert if j < i then Separate(tasks[j], tasks[i]) else Separate(tasks[i], tasks[j]);
      }
    }

    /** The running task goes on at `status` when it is dispatched again. */
    ghost method Leave(status: Ipc.Status, s: Ipc.System)
      requires Valid() && Models(s) && 0 < s.current <= |s.tasks|
      modifies tasks`status
      ensures Valid() && Models(Ipc.WithMe(s, Ipc.Me(s).(status := status)))
    {
      hide Ring, Table, At;
      var i := s.current - 1;
      tasks[i].status := status;
      forall j | 0 <= j < |tasks| && j != i
        ensures tasks[j].State() == s.tasks[j]
      {
        assert j < i ==> Separate(tasks[j], tasks[i]);
        assert i < j ==> Separate(tasks[i], tasks[j]);
      }
    }

    /** message_pop by the running task. */
    method PopMine(ghost s: Ipc.System) returns (msg: Popped<Ipc.Message>)
      requires Valid() && Models(s) && Ipc.Shaped(s) && s.current > 0
      modifies (set t | t in tasks :: t.recvbuf)
      ensures Valid() && Models(Ipc.WithMe(s, Ipc.Me(s).(inbox := Rest(Ipc.Me(s).inbox))))
              && msg == First(Ipc.Me(s).inbox)
    {
      hide Ring, Table, At, Owned, Are, Rest, First, Shape;
      var utsk := Me(s);
      msg := PopFrom(utsk, s.current - 1, s.tasks);
    }

    /** The running user task is the one the current ring node leads to. */
    method Me(ghost s: Ipc.System) returns (utsk: UserTask)
      requires Valid() && Models(s) && s.current > 0
      ensures 0 < s.current <= |s.tasks| == |tasks| && utsk == tasks[s.current - 1] && utsk.State() == Ipc.Me(s)
    {
      var ctsk := current.data;
      assert ctsk == tasks[position - 1].task by {
        assert order.nodes[position - 1 + 1].data == tasks[position - 1].task;
      }
      return ctsk.parent;
    }

    /** The part common to both calls that block: user_block, tasking_enable and the tick, which goes to another
        task. */
    method Suspend(pid: nat, ghost status: Ipc.Status, ghost s: Ipc.System)
      requires Valid() && Models(s) && 0 < s.current <= |s.tasks| && Ipc.Me(s).pid == pid
      modifies this`enabled, this`current, this`position, tasks`status, (set t | t in tasks :: t.task)`blocked
      ensures Valid() && enabled
      ensures Models(Ipc.Switch(Ipc.SetBlocked(Ipc.WithMe(s, Ipc.Me(s).(status := status)), pid, true)))
    {
      hide Valid, Models, Ipc.Switch, Ipc.Find;
      SameLength(s);
      Leave(status, s);
      ghost var left := Ipc.WithMe(s, Ipc.Me(s).(status := status));
      SetBlocked(pid, true, left);
      enabled := true;
      Tick(Ipc.SetBlocked(left, pid, true));
    }

    /** message_async_send up to its tick, or to its end where it does not block. -1: no such task. */
    method AsyncSend(msg: Ipc.Message, ghost s: Ipc.System) returns (r: int)
      requires Valid() && Models(s) && Ipc.Inv(s) && enabled
      requires Ipc.Possible(s, Ipc.Send(msg.dst, msg.data)) && msg == Ipc.Outgoing(s, Ipc.Send(msg.dst, msg.data))
      modifies this`enabled, this`current, this`position, tasks`status, (set t | t in tasks :: t.task)`blocked,
               (set t | t in tasks :: t.recvbuf), (set t | t in tasks :: t.recvbuf.buffer)
      ensures Valid() && Models(Ipc.Step(s, Ipc.Send(msg.dst, msg.data))) && enabled
      ensures r == if msg.dst < |s.tasks| then 0 else -1
    {
      hide Valid, Models, Are, Pushed, Rest, First, Shape;
      hide Ipc.Inv, Ipc.Find, Ipc.SetBlocked, Ipc.Deliver, Ipc.Switch;
      SameLength(s);
      Ipc.InvPids(s);
      Ipc.FindByPid(s.tasks, msg.dst);
      var dtsk := Find(msg.dst, s);
      if dtsk == null {
        return -1;
      }
      enabled := false;
      ghost var d := Ipc.Find(s.tasks, msg.dst);
      BufferIs(s, d);
      if dtsk.recvbuf.count >= dtsk.recvbuf.buffer.Length {
        Suspend(msg.src, Ipc.Sending(d, msg), s);
        return 0;
      }
      Deliver(dtsk, d, msg, s);
      enabled := true;
      return 0;
    }

    /** The end of message_async_send: the message goes into the buffer and the task it is for is woken. */
    method Deliver(dtsk: UserTask, ghost d: nat, msg: Ipc.Message, ghost s: Ipc.System)
      requires Valid() && Models(s) && d < |s.tasks| && d < |tasks| && dtsk == tasks[d] && Shape(s.tasks[d].inbox)
      modifies (set t | t in tasks :: t.task)`blocked, dtsk.recvbuf, dtsk.recvbuf.buffer
      ensures Valid() && Models(Ipc.Deliver(s, d, msg))
    {
      hide Ring, Table, At, Owned, Are, Pushed, Shape, Ipc.Find;
      SameLength(s);
      PushTo(dtsk, d, msg, s.tasks);
      ghost var pushed := s.(tasks := s.tasks[d := s.tasks[d].(inbox := Pushed(s.tasks[d].inbox, msg))]);
      var blocked := IsBlocked(msg.dst, pushed);
      if blocked {
        SetBlocked(msg.dst, false, pushed);
      } else {
        AwakeTheAwake(pushed, msg.dst);
      }
    }

    lemma AwakeTheAwake(s: Ipc.System, id: nat)
      requires var i := Ipc.Find(s.tasks, id); i < 0 || !s.tasks[i].blocked
      ensures Ipc.SetBlocked(s, id, false) == s
    {
    }

    lemma BufferIs(s: Ipc.System, i: nat)
      requires Models(s) && i < |s.tasks|
      ensures i < |tasks| && tasks[i].recvbuf.count == s.tasks[i].inbox.count
      ensures tasks[i].recvbuf.buffer.Length == |s.tasks[i].inbox.slots|
    {
      assert tasks[i].State() == s.tasks[i];
    }

    /** message_async_send from its tick on, when the blocked sender is dispatched again. `dtsk` and `msg` are its
        locals. */
    method SendResumed(dtsk: UserTask, msg: Ipc.Message, ghost s: Ipc.System) returns (r: int)
      requires Valid() && Models(s) && Ipc.Inv(s) && Ipc.Possible(s, Ipc.Resume) && Ipc.Me(s).status.Sending?
      requires Ipc.Me(s).status.to < |tasks| && dtsk == tasks[Ipc.Me(s).status.to] && msg == Ipc.Me(s).status.msg
      modifies this`enabled, tasks`status, (set t | t in tasks :: t.task)`blocked, dtsk.recvbuf, dtsk.recvbuf.buffer
      ensures Valid() && Models(Ipc.Step(s, Ipc.Resume)) && enabled && r == 0
    {
      hide Valid, Models, Pushed, Shape, Ipc.Find, Ipc.Inv, Ipc.Deliver;
      SameLength(s);
      Leave(Ipc.Running, s);
      Deliver(dtsk, Ipc.Me(s).status.to, msg, Ipc.WithMe(s, Ipc.Me(s).(status := Ipc.Running)));
      enabled := true;
      return 0;
    }

    /** message_async_recv up to its tick, or to its end where there is a message; it answers Empty where it blocks. */
    method AsyncRecv(ghost s: Ipc.System) returns (msg: Popped<Ipc.Message>)
      requires Valid() && Models(s) && Ipc.Inv(s) && Ipc.Possible(s, Ipc.Receive)
      modifies this`enabled, this`current, this`position, tasks`status, (set t | t in tasks :: t.task)`blocked,
               (set t | t in tasks :: t.recvbuf)
      ensures Valid() && Models(Ipc.Step(s, Ipc.Receive)) && enabled
      ensures msg == Ipc.Answer(s, Ipc.Receive) && (msg == Empty <==> Ipc.Me(s).inbox.count == 0)
    {
      hide Valid, Models, Are, Rest, Shape;
      hide Ipc.Inv, Ipc.Find, Ipc.SetBlocked, Ipc.Deliver, Ipc.Switch;
      SameLength(s);
      enabled := false;
      var utsk := Me(s);
      BufferIs(s, s.current - 1);
      if utsk.recvbuf.count == 0 {
        Suspend(utsk.pid, Ipc.Receiving, s);
        return Empty;
      }
      msg := PopMine(s);
      enabled := true;
    }

    /** message_async_recv from its tick on, when the blocked receiver is dispatched again. There is a message, and
        it is read exactly while the head is inside the buffer. */
    method RecvResumed(ghost s: Ipc.System) returns (msg: Popped<Ipc.Message>)
      requires Valid() && Models(s) && Ipc.Inv(s) && Ipc.Possible(s, Ipc.Resume) && Ipc.Me(s).status.Receiving?
      modifies this`enabled, tasks`status, (set t | t in tasks :: t.recvbuf)
      ensures Valid() && Models(Ipc.Step(s, Ipc.Resume)) && enabled
      ensures msg == Ipc.Answer(s, Ipc.Resume) && Ipc.Me(s).inbox.count > 0
      ensures msg != Empty && (msg.Got? <==> Ipc.Me(s).inbox.head < s.capacity)
    {
      hide Valid, Models, Rest, First, Shape, Ipc.Inv;
      ResumedHasMessage(s);
      Leave(Ipc.Running, s);
      ghost var running := Ipc.WithMe(s, Ipc.Me(s).(status := Ipc.Running));
      msg := PopMine(running);
      assert Ipc.WithMe(running, Ipc.Me(running).(inbox := Rest(Ipc.Me(s).inbox))).tasks == Ipc.Step(s,
             Ipc.Resume).tasks;
      enabled := true;
    }

    /** message_async_recv_poll */
    method AsyncRecvPoll(ghost s: Ipc.System) returns (msg: Popped<Ipc.Message>)
      requires Valid() && Models(s) && Ipc.Possible(s, Ipc.Poll)
      modifies this`enabled, (set t | t in tasks :: t.recvbuf)
      ensures Valid() && Models(Ipc.Step(s, Ipc.Poll)) && enabled
      ensures msg == Ipc.Answer(s, Ipc.Poll) && (msg == Empty <==> Ipc.Me(s).inbox.count == 0)
    {
      hide Valid, Models, Rest, Shape;
      enabled := false;
      msg := PopMine(s);
      enabled := true;
    }

    /** user_spawn and user_fork as the scheduler sees them: a new unblocked task at the end of the ring and of the
        table. */
    method Spawn(ghost s: Ipc.System) returns (pid: nat)
      requires Valid() && Models(s) && Ipc.Possible(s, Ipc.Spawn) && 0 < capacity <= 0x7FFF
      modifies this`enabled, this`nextPid, this`tasks, order, order.nodes, users, users.nodes
      ensures Valid() && Models(Ipc.Step(s, Ipc.Spawn)) && enabled && pid == s.nextPid
    {
      hide Ring, Table, At, Owned, Are;
      enabled := false;
      pid := nextPid;
      nextPid := (nextPid + 1) % Ipc.PIDS;
      var utsk := NewUserTask(pid);
      OneMore(tasks, s.tasks, utsk);
      Enlist(utsk, s.tasks + [utsk.State()]);
      enabled := true;
    }

    method Enlist(utsk: UserTask, ghost ts: seq<Ipc.Task>)
      requires Ring(tasks) && Table(tasks) && At() && Owned(tasks + [utsk]) && Are(tasks + [utsk], ts)
      modifies this`tasks, order, order.nodes, users, users.nodes
      ensures tasks == old(tasks) + [utsk] && Ring(tasks) && Table(tasks) && At() && Owned(tasks) && Are(tasks, ts)
    {
      hide Ring, Table, At, Owned, Are;
      AddToRing(utsk);
      AddToTable(utsk);
      tasks := tasks + [utsk];
    }

    method NewUserTask(pid: nat) returns (utsk: UserTask)
      requires 0 < capacity <= 0x7FFF
      ensures fresh(utsk) && fresh(utsk.task) && fresh(utsk.recvbuf) && fresh(utsk.recvbuf.buffer)
      ensures utsk.task.parent == utsk && utsk.recvbuf.Valid()
      ensures utsk.State() == Ipc.Task(pid, false, Ipc.Running, Ipc.NewQueue(capacity))
    {
      var recvbuf := new MessageBuffer<Ipc.Message>(capacity, Ipc.Message(0, 0, 0));
      var task := new Task();
      utsk := new UserTask(pid, task, recvbuf);
      task.parent := utsk;
    }

    lemma OneMore(us: seq<UserTask>, ts: seq<Ipc.Task>, utsk: UserTask)
      requires Owned(us) && Are(us, ts)
      requires utsk.task != boot && utsk.task.parent == utsk && utsk.recvbuf.Valid()
      requires forall i :: 0 <= i < |us| ==> Separate(us[i], utsk)
      ensures Owned(us + [utsk]) && Are(us + [utsk], ts + [utsk.State()])
    {
    }

    method AddToRing(utsk: UserTask)
      requires Ring(tasks) && At()
      modifies order, order.nodes
      ensures Ring(tasks + [utsk]) && At()
    {
      hide List.Linked, List.Data;
      var _ := order.Push(utsk.task);
    }

    method AddToTable(utsk: UserTask)
      requires Table(tasks)
      modifies users, users.nodes
      ensures Table(tasks + [utsk])
    {
      hide List.Linked, List.Data;
      var _ := users.Push(utsk);
    }
  }

  lemma ResumedHasMessage(s: Ipc.System)
    requires Ipc.Inv(s) && Ipc.Possible(s, Ipc.Resume) && Ipc.Me(s).status.Receiving?
    ensures Shape(Ipc.Me(s).inbox) && Ipc.Me(s).inbox.count > 0
    ensures First(Ipc.Me(s).inbox) != Empty && (First(Ipc.Me(s).inbox).Got? <==> Ipc.Me(s).inbox.head < s.capacity)
  {
    assert Ipc.TaskOk(s, s.current - 1);
  }

  lemma {:induction false} FirstWithPid(tasks: seq<Ipc.Task>, pid: nat, k: nat)
    requires k <= |tasks| && (forall i :: 0 <= i < k ==> tasks[i].pid != pid) && (k < |tasks| ==> tasks[k].pid == pid)
    ensures Ipc.Find(tasks, pid) == if k < |tasks| then k else -1
  {
    if k > 0 {
      FirstWithPid(tasks[1..], pid, k - 1);
    }
  }
}
