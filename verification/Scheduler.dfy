/** The scheduler of kernel/task.c: round-robin over the task list, with preempt_count as the gate.
    Tasks are numbered by their place in the list. list_add_tail puts a new task behind all others, so that
    with no removals (which this model leaves out) places never change; init_task has place 0. */
module Scheduler {
  import opened List

  const NOBODY: int := -1  // the NULL of `next`
  const DEAD: int := 0
  const RUNNING: int := 1
  const ZOMBIE: int := 3

  /** `unrun` tasks have never run: they will start at ret_from_fork, which enables nothing. */
  datatype Task = Task(state: int, count: int, unrun: bool)

  /** What the task_structs and the two scheduler variables hold. */
  datatype Queue = Queue(tasks: seq<Task>, current: int, next: int)

  predicate Sound(q: Queue) {
    0 <= q.current < |q.tasks| && NOBODY <= q.next < |q.tasks|
  }

  function AddCount(q: Queue, d: int): (r: Queue)
    requires Sound(q)
    ensures Sound(r)
  {
    var t := q.tasks[q.current];
    q.(tasks := q.tasks[q.current := t.(count := t.count + d)])
  }

  predicate CanSwitch(q: Queue, n: int)
    requires Sound(q)
  {
    0 <= n < |q.tasks| && n != q.current && q.tasks[n].state == RUNNING
  }

  /** The second half of switch_to: cpu_switch_to continues another task behind its own cpu_switch_to, where
      it enables preemption again, or starts it if it never ran. */
  function Decide(q: Queue, n: int): (r: Queue)
    requires Sound(q)
    ensures Sound(r)
  {
    if !CanSwitch(q, n) then AddCount(q, -1)
    else if q.tasks[n].unrun then Queue(q.tasks[n := q.tasks[n].(unrun := false)], n, q.next)
    else AddCount(q.(current := n), -1)
  }

  function SwitchedTo(q: Queue, n: int): Queue
    requires Sound(q)
  {
    Decide(AddCount(q, 1), n)
  }

  function Started(q: Queue, n: int): Queue
    requires Sound(q) && 0 <= n < |q.tasks|
  {
    Queue(q.tasks[n := q.tasks[n].(unrun := false)], n, q.next)
  }

  lemma SwitchParts(q: Queue, n: int)
    requires Sound(q) && NOBODY <= n < |q.tasks|
    ensures var q1 := AddCount(q, 1);
      SwitchedTo(q, n) == if !CanSwitch(q1, n) then AddCount(q1, -1)
                          else if q1.tasks[n].unrun then Started(q1, n)
                          else AddCount(Started(q1, n), -1)
  {
    var q1 := AddCount(q, 1);
    if CanSwitch(q1, n) && !q1.tasks[n].unrun {
      assert Started(q1, n).tasks == q1.tasks;
    }
  }

  /** scheduler_tick, and schedule when nothing comes in between; `n` is the place after the current one. */
  function Rescheduled(q: Queue, n: int): Queue
    requires Sound(q) && 0 <= n < |q.tasks|
  {
    if q.tasks[q.current].count > 0 then q else SwitchedTo(q.(next := n), n)
  }

  // ---------------------------------------------------------------- the task list

  class TaskStruct {
    var state: int
    var preemptCount: int
    var unrun: bool  // cpu_context.pc is ret_from_fork
    const list: ListNode

    constructor (list: ListNode)
      ensures this.list == list && state == DEAD && preemptCount == 0 && unrun
    {
      this.list, state, preemptCount, unrun := list, DEAD, 0, true;
    }
  }

  class RunQueue {
    var current: TaskStruct
    var next: TaskStruct?
    const initTask: TaskStruct
    var entry: map<ListNode, TaskStruct>  // list_entry: the task a node is embedded in
    ghost var queue: seq<TaskStruct>
    ghost var at: int      // the place of `current`
    ghost var nextAt: int  // the place of `next`, or NOBODY

    /** init_init_task: the task that is already running heads the list. */
    constructor (init: TaskStruct)
      requires init.preemptCount == 0
      modifies init, init.list
      ensures Valid() && queue == [init] && View() == Queue([Task(RUNNING, 0, false)], 0, NOBODY)
    {
      initTask, current, next, entry := init, init, null, map[init.list := init];
      queue, at, nextAt := [init], 0, NOBODY;
      new;
      InitListHead(init.list);
      init.state, init.unrun := RUNNING, false;
      assert Nodes() == [init.list] + [];
    }

    ghost function Nodes(): (s: seq<ListNode>)
      reads `queue
      ensures |s| == |queue| && forall i :: 0 <= i < |s| ==> s[i] == queue[i].list
    {
      var q := queue;
      seq(|q|, i requires 0 <= i < |q| => q[i].list)
    }

    ghost predicate Valid()
      reads this, queue, Nodes()
    {
      && 0 <= at < |queue| && queue[at] == current && queue[0] == initTask
      && NOBODY <= nextAt < |queue| && next == (if nextAt == NOBODY then null else queue[nextAt])
      && Ring(Nodes())
      && (forall i :: 0 <= i < |queue| ==> queue[i].list in entry && entry[queue[i].list] == queue[i])
    }

    ghost function View(): (q: Queue)
      requires Valid()
      reads this, queue, Nodes()
      ensures Sound(q) && |q.tasks| == |queue| && q.current == at && q.next == nextAt
      ensures forall i :: 0 <= i < |queue| ==> q.tasks[i] == Task(queue[i].state, queue[i].preemptCount, queue[i].unrun)
    {
      var s := queue;
      Queue(seq(|s|, i requires 0 <= i < |s| reads s => Task(s[i].state, s[i].preemptCount, s[i].unrun)), at, nextAt)
    }

    /** No two places hold the same task. */
    lemma Places()
      requires Valid()
      ensures forall i, j :: 0 <= i < j < |queue| ==> queue[i] != queue[j]
    {
      forall i, j | 0 <= i < j < |queue|
        ensures queue[i] != queue[j]
      {
        assert Nodes()[i] != Nodes()[j];
      }
    }

    method PreemptDisable()
      requires Valid()
      modifies current`preemptCount
      ensures Valid() && View() == AddCount(old(View()), 1)
    {
      Places();
      current.preemptCount := current.preemptCount + 1;
      assert View().tasks == AddCount(old(View()), 1).tasks;
    }

    method PreemptEnable()
      requires Valid()
      modifies current`preemptCount
      ensures Valid() && View() == AddCount(old(View()), -1)
    {
      Places();
      current.preemptCount := current.preemptCount - 1;
      assert View().tasks == AddCount(old(View()), -1).tasks;
    }

    /** cpu_switch_to: says whether the task switched to starts afresh. */
    method CpuSwitchTo(next: TaskStruct, ghost n: int) returns (starts: bool)
      requires Valid() && 0 <= n < |queue| && next == queue[n]
      modifies this`current, this`at, next`unrun
      ensures Valid() && starts == old(next.unrun)
      ensures View() == Started(old(View()), n)
    {
      Places();
      hide Ring, View;
      starts := next.unrun;
      current, at, next.unrun := next, n, false;
      assert View().tasks == old(View()).tasks[n := old(View()).tasks[n].(unrun := false)];
    }

    /** switch_to, followed from cpu_switch_to on in the task switched to. */
    method SwitchTo(next: TaskStruct?, ghost n: int)
      requires Valid() && NOBODY <= n < |queue| && next == (if n == NOBODY then null else queue[n])
      modifies this`current, this`at, queue
      ensures Valid() && View() == SwitchedTo(old(View()), n)
      ensures current == if next != null && old(next.state) == RUNNING then next else old(current)
      ensures forall t :: t in queue ==> t.state == old(t.state)
    {
      Places();
      SwitchParts(View(), n);
      hide Ring, View, AddCount, SwitchedTo;
      PreemptDisable();
      if !(current == next || next == null || next.state != RUNNING) {
        var starts := CpuSwitchTo(next, n);
        if starts {
          return;
        }
      }
      PreemptEnable();
    }

    /** The task behind the current one on the list. */
    lemma NextEntry()
      requires Valid()
      ensures current.list.next != null && current.list.next in entry
      ensures 0 <= After(at, |queue|) < |queue| && entry[current.list.next] == queue[After(at, |queue|)]
    {
      assert Nodes()[at].next == Nodes()[After(at, |queue|)];
    }

    /** The task whose list node the one of the current task points to. */
    ghost function Successor(): TaskStruct
      requires Valid()
      reads this, queue, Nodes()
    {
      NextEntry();
      entry[current.list.next]
    }

    /** next = list_entry(current->list.next). */
    method TakeNext()
      requires Valid()
      modifies this`next, this`nextAt
      ensures Valid() && View() == old(View()).(next := After(old(at), |queue|))
    {
      NextEntry();
      hide Ring, After, View;
      next, nextAt := entry[current.list.next], After(at, |queue|);
      assert View().tasks == old(View()).tasks;
    }

    method SelectNextTask()
      requires Valid()
      modifies this`next, this`nextAt, current`preemptCount
      ensures Valid() && View() == old(View()).(next := After(old(at), |queue|))
    {
      hide Ring, After, View;
      ghost var v := View();
      assert AddCount(AddCount(v, 1), -1).tasks == v.tasks;
      PreemptDisable();
      TakeNext();
      PreemptEnable();
    }

    /** scheduler_tick, which runs with interrupts off until the switch. */
    method SchedulerTick()
      requires Valid()
      modifies this`current, this`at, this`next, this`nextAt, queue
      ensures Valid() && View() == Rescheduled(old(View()), After(old(at), |queue|))
      ensures var n := old(Successor());
        current == if old(current.preemptCount) <= 0 && old(n.state) == RUNNING then n else old(current)
      ensures forall t :: t in queue ==> t.state == old(t.state)
    {
      if current.preemptCount > 0 {
        return;
      }
      SelectNextTask();
      SwitchTo(next, nextAt);
    }

    /** schedule, when no tick comes in between. */
    method Schedule()
      requires Valid()
      modifies this`current, this`at, this`next, this`nextAt, queue
      ensures Valid() && View() == Rescheduled(old(View()), After(old(at), |queue|))
      ensures var n := old(Successor());
        current == if old(current.preemptCount) <= 0 && old(n.state) == RUNNING then n else old(current)
      ensures forall t :: t in queue ==> t.state == old(t.state)
    {
      if current.preemptCount > 0 {
        return;
      }
      SelectNextTask();
      SwitchTo(next, nextAt);
    }

    /** task_add. */
    method TaskAdd(p: TaskStruct)
      requires Valid() && p !in queue && p.list !in Nodes()
      modifies this`entry, this`queue, p, p.list, initTask.list, initTask.list.prev
      ensures Valid() && queue == old(queue) + [p]
      ensures View() == old(View()).(tasks := old(View()).tasks + [Task(RUNNING, old(p.preemptCount), old(p.unrun))])
    {
      hide Ring, View;
      ghost var nodes, v := Nodes(), View();
      assert nodes == [initTask.list] + nodes[1..];
      ListAddTail(p.list, initTask.list, nodes[1..]);
      p.state := RUNNING;
      entry := entry[p.list := p];
      queue := queue + [p];
      assert Nodes() == [initTask.list] + (nodes[1..] + [p.list]);
      assert Valid() by {
        assert forall i :: 0 <= i < |queue| - 1 ==> queue[i].list == nodes[i];
      }
      assert View().tasks == v.tasks + [Task(RUNNING, p.preemptCount, p.unrun)];
    }

    /** kthread_create, from where the task_struct has been set up; copy_process ends in the same way. */
    method AddTask(p: TaskStruct)
      requires Valid() && p !in queue && p.list !in Nodes() && p.preemptCount == 0 && p.unrun
      modifies this`entry, this`queue, current`preemptCount, p, p.list, initTask.list, initTask.list.prev
      ensures Valid() && queue == old(queue) + [p]
      ensures View() == old(View()).(tasks := old(View()).tasks + [Task(RUNNING, 0, true)])
    {
      hide Ring, View;
      PreemptDisable();
      TaskAdd(p);
      PreemptEnable();
      assert View().tasks == old(View()).tasks + [Task(RUNNING, 0, true)];
    }
  }
}
