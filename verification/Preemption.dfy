/** The scheduler one step at a time: timer interrupts between the steps of schedule, of task creation and
    of critical sections. A tick is atomic; everything else may be interrupted. */
module Preemption {
  import opened Scheduler

  /** Where a task is. `depth` counts the critical sections it is in; `arg` is the argument switch_to has
      been called with; `stores` counts the steps of task_add made so far, and `tail` is head->prev. */
  datatype Pc =
    | Free(depth: nat)
    | Selecting       // schedule: past its test of preempt_count
    | Choosing        // select_next_task: preemption disabled
    | Chosen          // `next` assigned
    | Calling         // select_next_task done
    | Switching(arg: int)
    | Deciding(arg: int)  // switch_to: preemption disabled; a task switched out by schedule waits here
    | Adding(stores: nat, depth: nat, tail: int)

  /** `nxt` and `prev` are the links of the task list; a task being created is the last one of all. */
  datatype State = State(q: Queue, pcs: seq<Pc>, nxt: seq<int>, prev: seq<int>)

  datatype Event = Tick | Step | CallSchedule | CallCreate | CallDisable | CallEnable | CallExit

  /** The preempt_count a running task ought to have. */
  function Depth(pc: Pc): nat {
    match pc
    case Free(d) => d
    case Adding(_, d, _) => d + 1
    case Choosing => 1
    case Chosen => 1
    case Deciding(_) => 1
    case _ => 0
  }

  ghost predicate Shaped(s: State) {
    Sound(s.q) && |s.pcs| == |s.nxt| == |s.prev| == |s.q.tasks|
  }
  ghost function Here(s: State): Pc
    requires Shaped(s)
  {
    s.pcs[s.q.current]
  }

  /** How many tasks are on the list. */
  ghost function Linked(s: State): int
    requires Shaped(s)
  {
    if Here(s).Adding? && Here(s).stores < 4 then |s.q.tasks| - 1 else |s.q.tasks|
  }

  ghost predicate IsRing(nxt: seq<int>, prev: seq<int>, m: int) {
    && m <= |nxt| == |prev|
    && forall i {:trigger nxt[i]} :: 0 <= i < m ==> nxt[i] == List.After(i, m) && prev[List.After(i, m)] == i
  }

  /** The links while a task is being put in. */
  ghost predicate HalfLinked(s: State, m: int, stores: nat, tail: int)
    requires Shaped(s) && |s.q.tasks| == m + 1 && m > 0
  {
    && tail == m - 1
    && IsRing(s.nxt, if stores >= 1 then s.prev[0 := tail] else s.prev, m)
    && (stores >= 1 ==> s.prev[0] == m)
    && (stores >= 2 ==> s.nxt[m] == 0)
    && (stores >= 3 ==> s.prev[m] == tail)
  }

  ghost predicate LinksOk(s: State)
    requires Shaped(s)
  {
    var pc, m := Here(s), Linked(s);
    if pc.Adding? && pc.stores < 4
    then m > 0 && HalfLinked(s, m, pc.stores, pc.tail)
    else IsRing(s.nxt, s.prev, m)
  }

  ghost predicate TaskOk(s: State, i: int)
    requires Shaped(s) && 0 <= i < |s.pcs|
  {
    var t, pc := s.q.tasks[i], s.pcs[i];
    && (pc.Switching? || pc.Deciding? ==> NOBODY <= pc.arg < Linked(s))
    && if i == s.q.current then !t.unrun && t.count == Depth(pc) && (pc.Adding? ==> pc.stores <= 5 && i < |s.pcs| - 1)
       else if t.unrun then t.count == 0 && pc == Free(0)
       else t.count == 1 && (pc.Deciding? || Depth(pc) == 0)
  }

  ghost predicate Inv(s: State) {
    && Shaped(s)
    && s.q.current < Linked(s) && s.q.next < Linked(s)
    && LinksOk(s)
    && forall i :: 0 <= i < |s.pcs| ==> TaskOk(s, i)
  }

  ghost function At(s: State, pc: Pc): State
    requires Shaped(s)
  {
    s.(pcs := s.pcs[s.q.current := pc])
  }

  /** The task continued after a switch returns from schedule if it had called it. */
  ghost function Returned(pcs: seq<Pc>, from: int, to: int): seq<Pc>
    requires 0 <= to < |pcs|
  {
    if from != to && pcs[to].Deciding? then pcs[to := Free(0)] else pcs
  }

  ghost function Ticked(s: State): State
    requires Inv(s)
  {
    if s.q.tasks[s.q.current].count > 0 then s else
    assert TaskOk(s, s.q.current);
    var q := Rescheduled(s.q, s.nxt[s.q.current]);
    s.(q := q, pcs := Returned(s.pcs, s.q.current, q.current))
  }

  /** One step of the current task. */
  ghost function Stepped(s: State): State
    requires Inv(s)
  {
    assert TaskOk(s, s.q.current);
    var q, node := s.q, |s.q.tasks| - 1;
    match Here(s)
    case Free(_) => s
    case Selecting => At(s.(q := AddCount(q, 1)), Choosing)
    case Choosing => At(s.(q := q.(next := s.nxt[q.current])), Chosen)
    case Chosen => At(s.(q := AddCount(q, -1)), Calling)
    case Calling => At(s, Switching(q.next))
    case Switching(n) => At(s.(q := AddCount(q, 1)), Deciding(n))
    case Deciding(n) =>
      var q' := Decide(q, n);
      if CanSwitch(q, n) then s.(q := q', pcs := Returned(s.pcs, q.current, n)) else At(s.(q := q'), Free(0))
    case Adding(k, d, tail) =>
      if k == 0 then At(s.(prev := s.prev[0 := node]), Adding(1, d, tail))
      else if k == 1 then At(s.(nxt := s.nxt[node := 0]), Adding(2, d, tail))
      else if k == 2 then At(s.(prev := s.prev[node := tail]), Adding(3, d, tail))
      else if k == 3 then At(s.(nxt := s.nxt[tail := node]), Adding(4, d, tail))
      else if k == 4 then At(s.(q := q.(tasks := q.tasks[node := q.tasks[node].(state := RUNNING)])),
                          Adding(5, d, tail))
      else At(s.(q := AddCount(q, -1)), Free(d))
  }

  ghost predicate Enabled(s: State, e: Event)
    requires Inv(s)
  {
    match e
    case Tick => true
    case Step => true
    case CallEnable => Here(s).Free? && Here(s).depth > 0
    case _ => Here(s).Free?
  }

  ghost function Next(s: State, e: Event): State
    requires Inv(s) && Enabled(s, e)
  {
    var q := s.q;
    match e
    case Tick => Ticked(s)
    case Step => Stepped(s)
    case CallSchedule => if q.tasks[q.current].count > 0 then s else At(s, Selecting)
    case CallCreate =>
      var s1 := At(s.(q := AddCount(q, 1)), Adding(0, Here(s).depth, s.prev[0]));
      State(s1.q.(tasks := s1.q.tasks + [Task(DEAD, 0, true)]), s1.pcs + [Free(0)],
            s.nxt + [NOBODY], s.prev + [NOBODY])
    case CallDisable => At(s.(q := AddCount(q, 1)), Free(Here(s).depth + 1))
    case CallEnable => At(s.(q := AddCount(q, -1)), Free(Here(s).depth - 1))
    case CallExit => s.(q := q.(tasks := q.tasks[q.current := q.tasks[q.current].(state := ZOMBIE)]))
  }

  lemma LastLink(nxt: seq<int>, prev: seq<int>, m: int)
    requires IsRing(nxt, prev, m) && m > 0
    ensures prev[0] == m - 1 && nxt[m - 1] == 0
  {
    assert nxt[m - 1] == List.After(m - 1, m);
  }

  lemma RingGrown(s: State, m: int)
    requires Shaped(s) && |s.q.tasks| == m + 1 && m > 0 && HalfLinked(s, m, 3, m - 1)
    ensures IsRing(s.nxt[m - 1 := m], s.prev, m + 1)
  {
    var nxt := s.nxt[m - 1 := m];
    forall i | 0 <= i < m + 1
      ensures nxt[i] == List.After(i, m + 1) && s.prev[List.After(i, m + 1)] == i
    {
      if i < m - 1 {
        assert s.nxt[i] == List.After(i, m);
      }
    }
  }

  lemma SameRing(nxt: seq<int>, prev: seq<int>, nxt': seq<int>, prev': seq<int>, m: int)
    requires IsRing(nxt, prev, m) && |nxt'| == |prev'| == |nxt|
    requires forall i :: 0 <= i < m ==> nxt'[i] == nxt[i] && prev'[i] == prev[i]
    ensures IsRing(nxt', prev', m)
  {
    forall i | 0 <= i < m
      ensures nxt'[i] == List.After(i, m) && prev'[List.After(i, m)] == i
    {
      assert nxt[i] == List.After(i, m);
    }
  }

  lemma StepKeeps(s: State)
    requires Inv(s)
    ensures Inv(Stepped(s))
  {
    assert TaskOk(s, s.q.current);
    var s' := Stepped(s);
    if Here(s).Adding? {
      AddingKeeps(s);
    } else {
      hide IsRing;
      var n := s'.q.current;
      assert TaskOk(s, n);
      assert !Here(s').Adding? && Linked(s') == Linked(s);
      forall i | 0 <= i < |s'.pcs|
        ensures TaskOk(s', i)
      {
        assert TaskOk(s, i);
      }
    }
  }

  lemma AddingKeeps(s: State)
    requires Inv(s) && Here(s).Adding?
    ensures Inv(Stepped(s))
  {
    AddingLinks(s);
    var s' := Stepped(s);
    hide IsRing, LinksOk, Stepped;
    forall i | 0 <= i < |s'.pcs|
      ensures TaskOk(s', i)
    {
      AddingTask(s, i);
    }
  }

  lemma AddingLinks(s: State)
    requires Inv(s) && Here(s).Adding?
    ensures var s' := Stepped(s);
      Shaped(s') && s'.q.current < Linked(s') && s'.q.next < Linked(s') && LinksOk(s') && |s'.pcs| == |s.pcs|
  {
    assert TaskOk(s, s.q.current);
    var s', m, k := Stepped(s), |s.q.tasks| - 1, Here(s).stores;
    if k == 0 {
      LastLink(s.nxt, s.prev, m);
      assert s'.prev[0 := m - 1] == s.prev;
    } else if k == 1 {
      SameRing(s.nxt, s.prev[0 := m - 1], s'.nxt, s'.prev[0 := m - 1], m);
    } else if k == 2 {
      SameRing(s.nxt, s.prev[0 := m - 1], s'.nxt, s'.prev[0 := m - 1], m);
    } else if k == 3 {
      RingGrown(s, m);
    }
  }

  lemma AddingTask(s: State, i: int)
    requires Inv(s) && Here(s).Adding? && Shaped(Stepped(s)) && 0 <= i < |s.pcs| == |Stepped(s).pcs|
    ensures TaskOk(Stepped(s), i)
  {
    hide IsRing;
    assert TaskOk(s, s.q.current) && TaskOk(s, i);
  }

  lemma TickKeeps(s: State)
    requires Inv(s)
    ensures Inv(Ticked(s))
  {
    hide IsRing;
    assert TaskOk(s, s.q.current);
    var s' := Ticked(s);
    if s' != s {
      assert 0 <= s.nxt[s.q.current] < |s.q.tasks| by { NextOnRing(s.nxt, s.prev, |s.nxt|, s.q.current); }
      assert TaskOk(s, s'.q.current);
      assert !Here(s').Adding? && Linked(s') == Linked(s);
      forall i | 0 <= i < |s'.pcs|
        ensures TaskOk(s', i)
      {
        assert TaskOk(s, i);
      }
    }
  }

  lemma NextOnRing(nxt: seq<int>, prev: seq<int>, m: int, i: int)
    requires IsRing(nxt, prev, m) && 0 <= i < m
    ensures nxt[i] == List.After(i, m) && 0 <= nxt[i] < m
  {
  }

  lemma CreateKeeps(s: State)
    requires Inv(s) && Enabled(s, CallCreate)
    ensures Inv(Next(s, CallCreate))
  {
    assert TaskOk(s, s.q.current);
    var s', m := Next(s, CallCreate), |s.nxt|;
    LastLink(s.nxt, s.prev, m);
    RingLonger(s.nxt, s.prev, m);
    hide IsRing;
    assert Here(s') == Adding(0, Here(s).depth, m - 1) && Linked(s') == m;
    forall i | 0 <= i < |s'.pcs|
      ensures TaskOk(s', i)
    {
      if i < |s.pcs| {
        assert TaskOk(s, i);
      }
    }
  }

  lemma RingLonger(nxt: seq<int>, prev: seq<int>, m: int)
    requires IsRing(nxt, prev, m) && m == |nxt|
    ensures IsRing(nxt + [NOBODY], prev + [NOBODY], m)
  {
    forall i | 0 <= i < m
      ensures (nxt + [NOBODY])[i] == List.After(i, m) && (prev + [NOBODY])[List.After(i, m)] == i
    {
      assert nxt[i] == List.After(i, m);
    }
  }

  lemma NextKeeps(s: State, e: Event)
    requires Inv(s) && Enabled(s, e)
    ensures Inv(Next(s, e))
  {
    assert TaskOk(s, s.q.current);
    match e
    case Tick => TickKeeps(s);
    case Step => StepKeeps(s);
    case CallCreate => CreateKeeps(s);
    case _ =>
      hide IsRing;
      var s' := Next(s, e);
      forall i | 0 <= i < |s'.pcs|
        ensures TaskOk(s', i)
      {
        assert TaskOk(s, i);
      }
  }

  // ---------------------------------------------------------------- runs

  ghost predicate Possible(s: State, es: seq<Event>)
    requires Inv(s)
    decreases |es|
  {
    es == [] || (Enabled(s, es[0]) && (NextKeeps(s, es[0]); Possible(Next(s, es[0]), es[1..])))
  }
  ghost function Run(s: State, es: seq<Event>): (r: State)
    requires Inv(s) && Possible(s, es)
    ensures Inv(r)
    decreases |es|
  {
    if es == [] then s else NextKeeps(s, es[0]); Run(Next(s, es[0]), es[1..])
  }

  /** init_task running alone. */
  ghost function Boot(): (s: State)
    ensures Inv(s)
  {
    var s := State(Queue([Task(RUNNING, 0, false)], 0, NOBODY), [Free(0)], [0], [0]);
    assert IsRing(s.nxt, s.prev, 1) && TaskOk(s, 0);
    s
  }

  /** In every reachable state: the current task has as many counts as critical sections it is in, a task
      switched out after having run has one, a task that never ran has none; and whenever preemption is
      possible the list is a ring of all the tasks. */
  lemma PreemptCounts(es: seq<Event>)
    requires Possible(Boot(), es)
    ensures var s := Run(Boot(), es);
      && s.q.tasks[s.q.current].count == Depth(Here(s))
      && (forall i :: 0 <= i < |s.q.tasks| && i != s.q.current ==>
            s.q.tasks[i].count == if s.q.tasks[i].unrun then 0 else 1)
      && (s.q.tasks[s.q.current].count == 0 ==> IsRing(s.nxt, s.prev, |s.q.tasks|))
  {
    var s := Run(Boot(), es);
    hide IsRing;
    assert TaskOk(s, s.q.current);
    forall i | 0 <= i < |s.q.tasks| && i != s.q.current
      ensures s.q.tasks[i].count == if s.q.tasks[i].unrun then 0 else 1
    {
      assert TaskOk(s, i);
    }
  }

  /** The processor changes hands only in a tick that finds the count at zero, or by the task's own call of
      schedule, inside switch_to; the task that gives way keeps one count and the one that gets it has none. */
  lemma SwitchAtZero(s: State, e: Event)
    requires Inv(s) && Enabled(s, e) && Next(s, e).q.current != s.q.current
    ensures (e == Tick && s.q.tasks[s.q.current].count == 0) || (e == Step && Here(s).Deciding?)
    ensures var q := Next(s, e).q; q.tasks[s.q.current].count == 1 && q.tasks[q.current].count == 0
  {
    NextKeeps(s, e);
    var s' := Next(s, e);
    assert TaskOk(s, s.q.current) && TaskOk(s', s.q.current) && TaskOk(s', s'.q.current);
    assert TaskOk(s, s'.q.current);
  }

  /** The task switched to is RUNNING, whatever the event. A tick switches if, and only if, it finds the count at zero
      and the next task on the list is another one and RUNNING; a step, if it is the one in switch_to and its argument
      is such a task. */
  lemma SwitchesToRunning(s: State, e: Event)
    requires Inv(s) && Enabled(s, e)
    ensures var c, q := s.q.current, Next(s, e).q;
      && (q.current != c ==> q.tasks[q.current].state == RUNNING)
      && (e == Tick ==>
            q.current == if s.q.tasks[c].count == 0 && IsRunning(s, s.nxt[c]) then s.nxt[c] else c)
      && (e == Step ==>
            q.current == if Here(s).Deciding? && IsRunning(s, Here(s).arg) then Here(s).arg else c)
      && (e != Tick && e != Step ==> q.current == c)
  {
    NextKeeps(s, e);
    hide IsRing;
    assert TaskOk(s, s.q.current);
  }

  predicate IsRunning(s: State, i: int) { 0 <= i < |s.q.tasks| && s.q.tasks[i].state == RUNNING }

  /** Only a task's own exit ends its being RUNNING, and only its insertion makes it so. */
  lemma StatesKept(s: State, e: Event, i: int)
    requires Inv(s) && Enabled(s, e) && 0 <= i < |s.q.tasks|
    ensures var t := Next(s, e).q.tasks;
      && |t| == |s.q.tasks| + (if e == CallCreate then 1 else 0)
      && t[i].state ==
          if e == CallExit && i == s.q.current then ZOMBIE
          else if e == Step && Here(s).Adding? && Here(s).stores == 4 && i == |t| - 1 then RUNNING
          else s.q.tasks[i].state
    ensures e == CallCreate ==> Next(s, e).q.tasks[|s.q.tasks|].state == DEAD
  {
    hide IsRing;
    assert TaskOk(s, s.q.current);
  }

  // ---------------------------------------------------------------- task creation

  /** The state once the task being added is on the list and preemption enabled again. */
  ghost function Added(s: State): State
    requires Inv(s) && Here(s).Adding? && Here(s).stores == 0
  {
    var m := |s.q.tasks| - 1;
    var q := s.q.(tasks := s.q.tasks[m := s.q.tasks[m].(state := RUNNING)]);
    State(AddCount(q, -1), s.pcs[s.q.current := Free(Here(s).depth)],
          s.nxt[m := 0][m - 1 := m], s.prev[0 := m][m := m - 1])
  }

  /** `n` steps of the current task, one after the other. */
  ghost function Steps(s: State, n: nat): State
    requires Inv(s)
    decreases n
  {
    if n == 0 then s else
    StepKeeps(s);
    Steps(Stepped(s), n - 1)
  }

  lemma SixSteps(s: State) returns (s1: State, s2: State, s3: State, s4: State, s5: State, s6: State)
    requires Inv(s)
    ensures Inv(s1) && Inv(s2) && Inv(s3) && Inv(s4) && Inv(s5)
    ensures s1 == Stepped(s) && s2 == Stepped(s1) && s3 == Stepped(s2)
    ensures s4 == Stepped(s3) && s5 == Stepped(s4) && s6 == Stepped(s5) && s6 == Steps(s, 6)
  {
    hide Stepped, Inv;
    s1 := Stepped(s);
    StepKeeps(s);
    s2 := Stepped(s1);
    StepKeeps(s1);
    s3 := Stepped(s2);
    StepKeeps(s2);
    s4 := Stepped(s3);
    StepKeeps(s3);
    s5 := Stepped(s4);
    StepKeeps(s4);
    s6 := Stepped(s5);
    assert Steps(s5, 1) == s6 by { StepKeeps(s5); assert Steps(s6, 0) == s6; }
    assert Steps(s3, 3) == Steps(s4, 2) == s6;
    assert Steps(s1, 5) == Steps(s2, 4) == s6;
  }

  lemma AddedBySteps(s: State)
    requires Inv(s) && Here(s).Adding? && Here(s).stores == 0
    ensures Steps(s, 6) == Added(s)
  {
    assert TaskOk(s, s.q.current);
    hide IsRing, Inv, Steps;
    var s1, s2, s3, s4, s5, s6 := SixSteps(s);
    var d, t := Here(s).depth, Here(s).tail;
    assert Here(s1) == Adding(1, d, t) && Here(s2) == Adding(2, d, t) && Here(s3) == Adding(3, d, t);
    assert Here(s4) == Adding(4, d, t) && Here(s5) == Adding(5, d, t);
  }

  ghost function Count(es: seq<Event>, e: Event): nat {
    multiset(es)[e]
  }

  lemma LastCounts(es: seq<Event>, e: Event)
    requires es != [] && es[|es| - 1] == e
    ensures Count(es, e) >= 1
  {
    assert e in es;
  }

  /** However many ticks come between the steps of an insertion, they change nothing: the task stays current,
      and the list ends up with the new task at its end. */
  lemma InsertionUndisturbed(s: State, es: seq<Event>)
    requires Inv(s) && Here(s).Adding? && Possible(s, es)
    requires forall i :: 0 <= i < |es| ==> es[i] == Tick || es[i] == Step
    requires es != [] && es[|es| - 1] == Step
    requires Here(s).stores <= 5 && Count(es, Step) == 6 - Here(s).stores
    ensures Run(s, es) == Steps(s, 6 - Here(s).stores)
    ensures Here(s).stores == 0 ==> Run(s, es) == Added(s)
  {
    var first := Here(s).stores == 0;
    hide Inv, Run, Steps, Possible;
    TicksSkipped(s, es);
    if first {
      AddedBySteps(s);
    }
  }

  lemma AddingStep(s: State)
    requires Inv(s) && Here(s).Adding? && Here(s).stores <= 5
    ensures Next(s, Tick) == s && Inv(Next(s, Step))
    ensures Here(s).stores < 5 ==> Here(Next(s, Step)).Adding? && Here(Next(s, Step)).stores == Here(s).stores + 1
  {
    assert TaskOk(s, s.q.current);
    hide IsRing, Inv;
    NextKeeps(s, Step);
  }

  lemma {:induction false} TicksSkipped(s: State, es: seq<Event>)
    requires Inv(s) && Here(s).Adding? && Possible(s, es)
    requires forall i :: 0 <= i < |es| ==> es[i] == Tick || es[i] == Step
    requires es != [] && es[|es| - 1] == Step
    requires Here(s).stores <= 5 && Count(es, Step) == 6 - Here(s).stores
    ensures Run(s, es) == Steps(s, 6 - Here(s).stores)
    decreases |es|
  {
    AddingStep(s);
    hide IsRing, Inv, Ticked, Stepped;
    var rest := es[1..];
    assert es == [es[0]] + rest;
    if es[0] == Tick {
      TicksSkipped(s, rest);
    } else if Here(s).stores < 5 {
      TicksSkipped(Next(s, Step), rest);
    } else if rest != [] {
      LastCounts(rest, Step);
    }
  }

  /** Without a tick in between, schedule does what a tick does. */
  lemma ScheduleAlone(s: State)
    requires Inv(s) && Here(s) == Free(0)
    ensures Inv(Next(s, CallSchedule)) && Steps(Next(s, CallSchedule), 6).q == Rescheduled(s.q, s.nxt[s.q.current])
  {
    assert TaskOk(s, s.q.current);
    NextKeeps(s, CallSchedule);
    var n := s.nxt[s.q.current];
    NextOnRing(s.nxt, s.prev, |s.nxt|, s.q.current);
    hide IsRing, Inv, Steps;
    var s1, s2, s3, s4, s5, s6 := SixSteps(Next(s, CallSchedule));
    assert Here(s1) == Choosing && Here(s2) == Chosen && Here(s3) == Calling && Here(s4) == Switching(n);
    assert s3.q.tasks == s.q.tasks && s3.q == s.q.(next := n);
    assert Here(s5) == Deciding(n) && s5.q == AddCount(s3.q, 1);
  }

  // ---------------------------------------------------------------- round robin

  /** Tasks ready to run: those on the list, but for one whose state is not set yet. */
  ghost function Ready(s: State): int
    requires Shaped(s)
  {
    if Here(s).Adding? && Here(s).stores < 5 then |s.q.tasks| - 1 else |s.q.tasks|
  }

  /** The task that the current one is about to switch to, if it is inside schedule past its choice; itself
      otherwise. */
  ghost function Choice(s: State): int
    requires Shaped(s)
  {
    match Here(s)
    case Chosen => s.q.next
    case Calling => s.q.next
    case Switching(a) => a
    case Deciding(a) => a
    case _ => s.q.current
  }

  /** Task `i` may choose `a`: no other task, or the next one on the list of `n`; or the first, passing over
      none but tasks with places from `n0` on. */
  predicate InOrder(i: int, a: int, n: int, n0: int) {
    a == NOBODY || a == i || a == List.After(i, n) || (a == 0 && n0 <= i + 1)
  }

  ghost predicate AllRunning(s: State)
    requires Shaped(s)
  {
    forall i :: 0 <= i < Ready(s) ==> s.q.tasks[i].state == RUNNING
  }

  /** Task `a` waits before it reads `next` for its call of switch_to. */
  ghost predicate WillRead(s: State, a: int)
    requires Shaped(s)
  {
    0 <= a < |s.pcs| && a != s.q.current && s.pcs[a].Calling?
  }

  /** All tasks are RUNNING, and the choices pending in schedule are in order: that of the current task, and
      those of all waiting tasks but `x`. */
  ghost predicate Orderly(s: State, n0: int, x: int) {
    && Inv(s) && AllRunning(s) && 0 < n0 <= Ready(s)
    && InOrder(s.q.current, Choice(s), Ready(s), n0)
    && (forall i :: 0 <= i < |s.pcs| && i != s.q.current && i != x ==>
          s.pcs[i].Free? || s.pcs[i].Selecting? || s.pcs[i].Deciding? || s.pcs[i].Calling?
          || (s.pcs[i].Switching? && InOrder(i, s.pcs[i].arg, Ready(s), n0) && !WillRead(s, s.pcs[i].arg)))
    && ((Here(s).Switching? || Here(s).Deciding?) && WillRead(s, Here(s).arg) ==>
          InOrder(Here(s).arg, s.q.next, Ready(s), n0))
  }

  ghost predicate Cooperative(s: State) {
    Shaped(s) && Orderly(s, Ready(s), NOBODY)
  }

  /** Nobody exits, and no tick switches tasks between the choice and the switch of a call of schedule. */
  ghost predicate IsTimely(s: State, e: Event)
    requires Shaped(s)
  {
    e != CallExit && (IsEffective(s, e) ==> Here(s).Free? || Here(s).Selecting?)
  }
  ghost predicate TimelyRun(s: State, es: seq<Event>)
    requires Inv(s) && Possible(s, es)
    decreases |es|
  {
    es == [] || (IsTimely(s, es[0]) && (NextKeeps(s, es[0]); TimelyRun(Next(s, es[0]), es[1..])))
  }

  /** How far `to` is behind `from` on a list of `n` tasks. */
  function Distance(from: int, to: int, n: int): int { if to >= from then to - from else to - from + n }

  /** A tick that finds preemption enabled. */
  ghost predicate IsEffective(s: State, e: Event)
    requires Shaped(s)
  {
    e == Tick && s.q.tasks[s.q.current].count == 0
  }
  ghost function EffectiveTicks(s: State, es: seq<Event>): nat
    requires Inv(s) && Possible(s, es)
    decreases |es|
  {
    if es == [] then 0
    else (if IsEffective(s, es[0]) then 1 else 0) + (NextKeeps(s, es[0]); EffectiveTicks(Next(s, es[0]), es[1..]))
  }

  /** Task `t` is current at some point of the run. */
  ghost predicate GetsTurn(s: State, es: seq<Event>, t: int)
    requires Inv(s) && Possible(s, es)
    decreases |es|
  {
    s.q.current == t || (es != [] && (NextKeeps(s, es[0]); GetsTurn(Next(s, es[0]), es[1..], t)))
  }

  /** A timely event either leaves the current task, and the list as it is or longer by one; or it goes to the
      next task on the list, as every effective tick does, or back to the first, passing over late arrivals. */
  lemma Advances(s: State, e: Event, n0: int, x: int)
    requires Orderly(s, n0, x) && Enabled(s, e) && IsTimely(s, e)
    ensures Inv(Next(s, e))
    ensures var s', c, n := Next(s, e), s.q.current, Ready(s);
      || (s'.q.current == c && n <= Ready(s') <= n + 1 && (IsEffective(s, e) ==> n == 1) && Orderly(s', n0, x))
      || (s'.q.current != c && Ready(s') == n && (s'.q.current != x ==> Orderly(s', n0, x))
          && (s'.q.current == List.After(c, n) || (s'.q.current == 0 && n0 <= c + 1)))
  {
    NextKeeps(s, e);
    assert TaskOk(s, s.q.current);
    var s', c := Next(s, e), s.q.current;
    if !Here(s).Adding? {
      NextOnRing(s.nxt, s.prev, |s.nxt|, c);
      assert TaskOk(s, s.nxt[c]) && TaskOk(s, s'.q.current);
    }
    hide IsRing, Inv;
    if s'.q.current != c {
      MovesInOrder(s, e, n0, x);
    } else {
      StaysInOrder(s, e, n0, x);
    }
  }

  lemma StaysInOrder(s: State, e: Event, n0: int, x: int)
    requires Orderly(s, n0, x) && Enabled(s, e) && IsTimely(s, e) && Inv(Next(s, e))
    requires Next(s, e).q.current == s.q.current && TaskOk(s, s.q.current)
    requires !Here(s).Adding? ==> s.nxt[s.q.current] == List.After(s.q.current, |s.nxt|)
    ensures Ready(s) <= Ready(Next(s, e)) <= Ready(s) + 1 && (IsEffective(s, e) ==> Ready(s) == 1)
    ensures Orderly(Next(s, e), n0, x)
  {
    hide IsRing;
    var s' := Next(s, e);
    assert AllRunning(s');
    assert InOrder(s'.q.current, Choice(s'), Ready(s'), n0);
    forall i | 0 <= i < |s'.pcs| && i != s'.q.current && i != x
      ensures s'.pcs[i].Free? || s'.pcs[i].Selecting? || s'.pcs[i].Deciding? || s'.pcs[i].Calling?
          || (s'.pcs[i].Switching? && InOrder(i, s'.pcs[i].arg, Ready(s'), n0) && !WillRead(s', s'.pcs[i].arg))
    {
      if i < |s.pcs| {
        assert s'.pcs[i] == s.pcs[i];
        if s.pcs[i].Switching? {
          var a := s.pcs[i].arg;
          assert TaskOk(s, i);
          assert InOrder(i, a, Ready(s'), n0);
          assert !WillRead(s, a);
        }
      }
    }
  }

  lemma MovesInOrder(s: State, e: Event, n0: int, x: int)
    requires Orderly(s, n0, x) && Enabled(s, e) && IsTimely(s, e) && Inv(Next(s, e))
    requires Next(s, e).q.current != s.q.current && TaskOk(s, s.q.current) && TaskOk(s, Next(s, e).q.current)
    requires !Here(s).Adding? ==> s.nxt[s.q.current] == List.After(s.q.current, |s.nxt|)
    ensures var s', c, n := Next(s, e), s.q.current, Ready(s);
      && Ready(s') == n && (s'.q.current == List.After(c, n) || (s'.q.current == 0 && n0 <= c + 1))
      && (s'.q.current != x ==> Orderly(s', n0, x))
  {
    hide IsRing;
    var s', c := Next(s, e), s.q.current;
    assert s.pcs[c].Free? || s.pcs[c].Selecting? || s.pcs[c].Deciding?;
    assert forall i :: 0 <= i < |s.pcs| && i != s'.q.current ==> s'.pcs[i] == s.pcs[i];
    if s'.q.current != x {
      assert InOrder(s'.q.current, Choice(s'), Ready(s'), n0);
    }
  }

  lemma Nearer(c: int, t: int, n: int)
    requires 0 <= c < n && 0 <= t < n && c != t
    ensures Distance(List.After(c, n), t, n) == Distance(c, t, n) - 1
    ensures Distance(c, t, n) <= Distance(c, t, n + 1) <= Distance(c, t, n) + 1
    ensures t < c ==> Distance(0, t, n) < Distance(c, t, n)
  {
  }

  /** Arrivals and moves leave the order in which tasks are met. */
  lemma SameOrder(c: int, t: int, x: int, n: int)
    requires 0 <= c < n && 0 <= t < n && 0 <= x < n && c != t && Distance(c, t, n) <= Distance(c, x, n)
    ensures Distance(c, t, n + 1) <= Distance(c, x, n + 1)
    ensures c != x && Distance(List.After(c, n), t, n) <= Distance(List.After(c, n), x, n)
    ensures t < c && x < c ==> Distance(0, t, n) <= Distance(0, x, n)
  {
  }

  lemma CurrentReady(s: State)
    requires Inv(s)
    ensures 0 <= s.q.current < Ready(s)
  {
    assert TaskOk(s, s.q.current);
  }

  /** The bound for a task `t` that comes no later than task `x`, whose pending choice may be anything. */
  lemma {:induction false} BoundUpTo(s: State, es: seq<Event>, t: int, n0: int, x: int)
    requires Orderly(s, n0, x) && Possible(s, es) && TimelyRun(s, es) && 0 <= t < n0
    requires x == NOBODY || (0 <= x < n0 && Distance(s.q.current, t, Ready(s)) <= Distance(s.q.current, x, Ready(s)))
    ensures var d, arrivals := Distance(s.q.current, t, Ready(s)), Ready(Run(s, es)) - Ready(s);
      EffectiveTicks(s, es) >= d + arrivals ==> GetsTurn(s, es, t)
    decreases |es|
  {
    CurrentReady(s);
    if es != [] && s.q.current != t {
      Advances(s, es[0], n0, x);
      var s', c, n := Next(s, es[0]), s.q.current, Ready(s);
      Nearer(c, t, n);
      if x != NOBODY {
        SameOrder(c, t, x, n);
      }
      hide Orderly, IsTimely, Next, Ready;
      if s'.q.current != x || s'.q.current == c {
        BoundUpTo(s', es[1..], t, n0, x);
      }
    }
  }

  /** Round robin: a task `d` places behind the current one gets its turn within `d` effective ticks and one
      more for each task that arrives meanwhile, whatever voluntary switches there are. */
  lemma RoundRobin(s: State, es: seq<Event>, t: int)
    requires Cooperative(s) && Possible(s, es) && TimelyRun(s, es) && 0 <= t < Ready(s)
    ensures var d, arrivals := Distance(s.q.current, t, Ready(s)), Ready(Run(s, es)) - Ready(s);
      EffectiveTicks(s, es) >= d + arrivals ==> GetsTurn(s, es, t)
  {
    BoundUpTo(s, es, t, Ready(s), NOBODY);
  }

  /** No task is inside schedule, except those it has switched out. */
  ghost predicate OutsideSchedule(s: State)
    requires Shaped(s)
  {
    forall i :: 0 <= i < |s.pcs| ==> s.pcs[i].Free? || s.pcs[i].Adding? || (s.pcs[i].Deciding? && i != s.q.current)
  }

  lemma StaysOutside(s: State, e: Event)
    requires Cooperative(s) && OutsideSchedule(s) && Enabled(s, e) && e != CallSchedule && e != CallExit
    ensures Cooperative(Next(s, e)) && OutsideSchedule(Next(s, e))
    ensures var s', c, n := Next(s, e), s.q.current, Ready(s);
      || (s'.q.current == c && n <= Ready(s') <= n + 1 && (IsEffective(s, e) ==> n == 1))
      || (s'.q.current == List.After(c, n) && Ready(s') == n && IsEffective(s, e))
  {
    NextKeeps(s, e);
    assert TaskOk(s, s.q.current);
    assert Here(s).Free? || Here(s).Adding?;
    if Here(s).Free? {
      NextOnRing(s.nxt, s.prev, |s.nxt|, s.q.current);
      assert TaskOk(s, s.nxt[s.q.current]);
    }
    hide IsRing, Inv;
  }

  /** Without voluntary switches it does not get its turn before the `d`th effective tick. */
  lemma {:induction false} NotBefore(s: State, es: seq<Event>, t: int)
    requires Cooperative(s) && OutsideSchedule(s) && Possible(s, es) && 0 <= t < Ready(s)
    requires forall i :: 0 <= i < |es| ==> es[i] != CallSchedule && es[i] != CallExit
    ensures EffectiveTicks(s, es) < Distance(s.q.current, t, Ready(s)) ==> !GetsTurn(s, es, t)
    decreases |es|
  {
    CurrentReady(s);
    if es != [] {
      StaysOutside(s, es[0]);
      var s' := Next(s, es[0]);
      hide Cooperative, IsTimely, Next, Ready, OutsideSchedule;
      NotBefore(s', es[1..], t);
      if t != s.q.current {
        Nearer(s.q.current, t, Ready(s));
      }
    }
  }

  // ---------------------------------------------------------------- when the bound holds

  /** The bound of round robin, for every task and every timely run from `s`. */
  ghost predicate BoundHolds(s: State)
    requires Inv(s)
  {
    forall es, t :: Possible(s, es) && TimelyRun(s, es) && 0 <= t < Ready(s)
      && EffectiveTicks(s, es) >= Distance(s.q.current, t, Ready(s)) + Ready(Run(s, es)) - Ready(s)
      ==> GetsTurn(s, es, t)
  }

  /** A run that shows the bound to fail for `t`. */
  ghost predicate Misses(s: State, es: seq<Event>, t: int)
    requires Inv(s)
  {
    && Possible(s, es) && TimelyRun(s, es) && 0 <= t < Ready(s) && Ready(Run(s, es)) == Ready(s)
    && EffectiveTicks(s, es) == Distance(s.q.current, t, Ready(s)) && !GetsTurn(s, es, t)
  }

  lemma MissBreaks(s: State, es: seq<Event>, t: int)
    requires Inv(s) && Misses(s, es, t)
    ensures !BoundHolds(s)
  {
    hide Possible, Run, TimelyRun, EffectiveTicks, GetsTurn, Ready, Inv, Distance;
  }

  /** Waiting tasks have no choice pending. */
  ghost predicate NoneWaiting(s: State, x: int)
    requires Shaped(s)
  {
    forall i :: 0 <= i < |s.pcs| && i != s.q.current && i != x ==>
      s.pcs[i].Free? || s.pcs[i].Selecting? || s.pcs[i].Deciding?
  }

  /** From a choice out of order the current task switches to it and passes over the next task on the list. */
  lemma {:induction false} WrongSwitch(s: State) returns (es: seq<Event>)
    requires Inv(s) && AllRunning(s) && NoneWaiting(s, NOBODY)
    requires !InOrder(s.q.current, Choice(s), Ready(s), Ready(s))
    ensures Misses(s, es, List.After(s.q.current, Ready(s)))
    decreases match Here(s) case Chosen => 3 case Calling => 2 case Switching(_) => 1 case _ => 0
  {
    assert TaskOk(s, s.q.current);
    var c, a, s1 := s.q.current, Choice(s), Stepped(s);
    StepKeeps(s);
    if Here(s).Deciding? {
      es := [Step, Tick];
      SwitchAndTick(s);
    } else {
      hide IsRing;
      var rest := WrongSwitch(s1);
      hide Inv;
      es := [Step] + rest;
      assert es[1..] == rest;
    }
  }

  lemma SwitchAndTick(s: State)
    requires Inv(s) && AllRunning(s) && NoneWaiting(s, NOBODY) && Here(s).Deciding?
    requires !InOrder(s.q.current, Choice(s), Ready(s), Ready(s))
    ensures Misses(s, [Step, Tick], List.After(s.q.current, Ready(s)))
  {
    var es := [Step, Tick];
    assert TaskOk(s, s.q.current) && TaskOk(s, Choice(s));
    var s1 := Stepped(s);
    StepKeeps(s);
    TickKeeps(s1);
    var s2 := Ticked(s1);
    NextOnRing(s1.nxt, s1.prev, |s1.nxt|, s1.q.current);
    hide IsRing, Inv;
    assert es[1..] == [Tick] && [Tick][1..] == [];
  }

  /** When no waiting task has a choice pending, the bound holds if, and only if, the choice of the current task,
      if it has made one, is itself or the next task on the list. */
  lemma BoundIff(s: State)
    requires Inv(s) && AllRunning(s) && NoneWaiting(s, NOBODY)
    ensures BoundHolds(s) <==> Choice(s) in {NOBODY, s.q.current, List.After(s.q.current, Ready(s))}
  {
    CurrentReady(s);
    if InOrder(s.q.current, Choice(s), Ready(s), Ready(s)) {
      BoundFromOrder(s);
    } else {
      var es := WrongSwitch(s);
      MissBreaks(s, es, List.After(s.q.current, Ready(s)));
    }
  }

  lemma BoundFromOrder(s: State)
    requires Cooperative(s)
    ensures BoundHolds(s)
  {
    forall es, t | Possible(s, es) && TimelyRun(s, es) && 0 <= t < Ready(s)
      && EffectiveTicks(s, es) >= Distance(s.q.current, t, Ready(s)) + Ready(Run(s, es)) - Ready(s)
      ensures GetsTurn(s, es, t)
    {
      RoundRobin(s, es, t);
    }
  }

  /** The current task is outside schedule, or has not chosen yet. */
  ghost predicate NothingChosen(s: State)
    requires Shaped(s)
  {
    Here(s).Free? || Here(s).Selecting?
  }

  /** Ticks lead to the waiting task `i`, whose choice is out of order. */
  lemma {:induction false} TicksToWaiter(s: State, i: int) returns (es: seq<Event>)
    requires Inv(s) && AllRunning(s) && 0 <= i < |s.pcs| && NoneWaiting(s, i)
    requires s.pcs[i].Switching? && !InOrder(i, s.pcs[i].arg, Ready(s), Ready(s))
    requires i != s.q.current ==> NothingChosen(s) && Distance(s.q.current, i, Ready(s)) < Ready(s) - 1
    ensures Misses(s, es, List.After(i, Ready(s)))
    decreases Distance(s.q.current, i, |s.pcs|), Depth(Here(s))
  {
    if i == s.q.current {
      es := WrongSwitch(s);
    } else {
      assert TaskOk(s, s.q.current);
      var e := if Depth(Here(s)) == 0 then Tick else CallEnable;
      NextKeeps(s, e);
      Nearer(s.q.current, i, Ready(s));
      ApproachesWaiter(s, i, e);
      hide IsRing, Inv;
      var rest := TicksToWaiter(Next(s, e), i);
      es := [e] + rest;
      assert es[1..] == rest;
      WaiterTurn(s, i, Ready(s));
    }
  }

  lemma WaiterTurn(s: State, i: int, n: int)
    requires Inv(s) && 0 <= i < n && n == Ready(s) && i != s.q.current && Distance(s.q.current, i, n) < n - 1
    ensures List.After(i, n) != s.q.current
    ensures Distance(List.After(s.q.current, n), List.After(i, n), n) == Distance(s.q.current, List.After(i, n), n) - 1
  {
    CurrentReady(s);
  }

  lemma ApproachesWaiter(s: State, i: int, e: Event)
    requires Inv(s) && AllRunning(s) && 0 <= i < |s.pcs| && i != s.q.current && NoneWaiting(s, i) && s.pcs[i].Switching?
    requires NothingChosen(s) && e == (if Depth(Here(s)) == 0 then Tick else CallEnable)
    ensures Enabled(s, e) && IsTimely(s, e) && Inv(Next(s, e))
    ensures var s' := Next(s, e);
      && AllRunning(s') && NoneWaiting(s', i) && s'.pcs[i] == s.pcs[i] && |s'.pcs| == |s.pcs| && Ready(s') == Ready(s)
      && (if e == Tick then s'.q.current == List.After(s.q.current, Ready(s)) && IsEffective(s, e)
          else s'.q.current == s.q.current && !IsEffective(s, e) && Depth(Here(s')) < Depth(Here(s)))
      && (i != s'.q.current ==> NothingChosen(s'))
  {
    NextKeeps(s, e);
    assert TaskOk(s, s.q.current);
    NextOnRing(s.nxt, s.prev, |s.nxt|, s.q.current);
    assert TaskOk(s, s.nxt[s.q.current]);
    hide IsRing, Inv;
  }

  /** When the one choice pending is that of a waiting task, the bound holds if, and only if, that choice is itself
      or the next task on the list, or it is the turn of all other tasks before it. */
  lemma WaiterBoundIff(s: State, i: int)
    requires Inv(s) && AllRunning(s) && NothingChosen(s)
    requires 0 <= i < |s.pcs| && i != s.q.current && s.pcs[i].Switching? && NoneWaiting(s, i)
    ensures BoundHolds(s) <==>
      || s.pcs[i].arg in {NOBODY, i, List.After(i, Ready(s))}
      || Distance(s.q.current, i, Ready(s)) == Ready(s) - 1
  {
    CurrentReady(s);
    if Distance(s.q.current, i, Ready(s)) == Ready(s) - 1 {
      forall es, t | Possible(s, es) && TimelyRun(s, es) && 0 <= t < Ready(s)
        && EffectiveTicks(s, es) >= Distance(s.q.current, t, Ready(s)) + Ready(Run(s, es)) - Ready(s)
        ensures GetsTurn(s, es, t)
      {
        BoundUpTo(s, es, t, Ready(s), i);
      }
    } else if InOrder(i, s.pcs[i].arg, Ready(s), Ready(s)) {
      BoundFromOrder(s);
    } else {
      var es := TicksToWaiter(s, i);
      MissBreaks(s, es, List.After(i, Ready(s)));
    }
  }

  // ---------------------------------------------------------------- a choice out of date

  lemma {:induction false} RunOn(s: State, es: seq<Event>, e: Event)
    requires Inv(s) && Possible(s, es) && Enabled(Run(s, es), e)
    ensures Possible(s, es + [e]) && Run(s, es + [e]) == Next(Run(s, es), e)
    decreases |es|
  {
    hide Inv, Enabled, Next;
    var r := es + [e];
    if es == [] {
      NextKeeps(s, e);
      assert r[1..] == [];
      assert Possible(Next(s, e), []) && Run(Next(s, e), []) == Next(s, e);
    } else {
      NextKeeps(s, es[0]);
      assert r[0] == es[0] && r[1..] == es[1..] + [e];
      RunOn(Next(s, es[0]), es[1..], e);
    }
  }

  /** Task 1 was the last on the list when schedule chose init_task for it, a tick came before the switch, and
      meanwhile task 2 arrived behind it. */
  ghost function LateState(): State {
    State(Queue([Task(RUNNING, 0, false), Task(RUNNING, 1, false), Task(RUNNING, 0, true)], 0, 0),
          [Free(0), Switching(0), Free(0)], [1, 2, 0], [2, 0, 1])
  }

  lemma LateStateValid()
    ensures Inv(LateState())
  {
    var s := LateState();
    assert TaskOk(s, 0) && TaskOk(s, 1) && TaskOk(s, 2);
  }

  /** Task 1 now switches to its old choice and passes over task 2, which is two places behind the current task
      and has not had its turn after two effective ticks. */
  lemma LateChoiceSkips()
    ensures Inv(LateState())
    ensures var s, es := LateState(), [Tick, Step, Step, Tick];
      && Possible(s, es) && Ready(s) == 3 && Ready(Run(s, es)) == 3
      && EffectiveTicks(s, es) == Distance(s.q.current, 2, 3) == 2 && !GetsTurn(s, es, 2)
  {
    LateStateValid();
  }

  /** Some run leads from `s` to `s'`. */
  ghost predicate Leads(s: State, s': State)
    requires Inv(s)
  {
    exists es :: Possible(s, es) && Run(s, es) == s'
  }

  lemma LeadsOn(s: State, s': State, e: Event)
    requires Inv(s) && Leads(s, s') && Inv(s') && Enabled(s', e)
    ensures Inv(Next(s', e)) && Leads(s, Next(s', e))
  {
    var es :| Possible(s, es) && Run(s, es) == s';
    NextKeeps(s', e);
    RunOn(s, es, e);
    assert Possible(s, es + [e]) && Run(s, es + [e]) == Next(s', e);
  }

  lemma {:induction false} LeadsSteps(s: State, s': State, n: nat)
    requires Inv(s) && Leads(s, s') && Inv(s')
    ensures Inv(Steps(s', n)) && Leads(s, Steps(s', n))
    decreases n
  {
    hide Leads, Inv;
    if n > 0 {
      LeadsOn(s, s', Step);
      LeadsSteps(s, Stepped(s'), n - 1);
    }
  }

  /** A task is created, and its six steps done. */
  lemma Creates(s: State, s': State) returns (r: State)
    requires Inv(s) && Leads(s, s') && Inv(s') && Here(s') == Free(0)
    ensures Inv(r) && Leads(s, r) && Inv(Next(s', CallCreate)) && Here(Next(s', CallCreate)).Adding?
    ensures Here(Next(s', CallCreate)).stores == 0 && r == Added(Next(s', CallCreate))
  {
    hide Leads;
    LeadsOn(s, s', CallCreate);
    LeadsSteps(s, Next(s', CallCreate), 6);
    AddedBySteps(Next(s', CallCreate));
    r := Steps(Next(s', CallCreate), 6);
  }

  ghost function TwoTasks(q: Queue, pc1: Pc): State {
    State(q, [Free(0), pc1], [1, 0], [1, 0])
  }

  lemma ChoosesInitTask(s: State)
    requires Inv(s) && s == TwoTasks(Queue([Task(RUNNING, 1, false), Task(RUNNING, 0, false)], 1, 1), Selecting)
    ensures Steps(s, 4) == TwoTasks(Queue([Task(RUNNING, 1, false), Task(RUNNING, 0, false)], 1, 0), Switching(0))
  {
    hide Inv, IsRing;
    var s1 := Stepped(s);
    StepKeeps(s);
    var s2 := Stepped(s1);
    StepKeeps(s1);
    var s3 := Stepped(s2);
    StepKeeps(s2);
    var s4 := Stepped(s3);
    StepKeeps(s3);
    assert Steps(s4, 0) == s4;
    assert Steps(s2, 2) == Steps(s3, 1) == s4;
  }

  lemma LateStateReached()
    ensures Leads(Boot(), LateState())
  {
    var b := Boot();
    assert Possible(b, []) && Run(b, []) == b;
    hide Leads, Steps, IsRing;
    var s := Creates(b, b);
    assert s == TwoTasks(Queue([Task(RUNNING, 0, false), Task(RUNNING, 0, true)], 0, NOBODY), Free(0));
    LeadsOn(b, s, Tick);
    s := Next(s, Tick);
    assert s == TwoTasks(Queue([Task(RUNNING, 1, false), Task(RUNNING, 0, false)], 1, 1), Free(0));
    LeadsOn(b, s, CallSchedule);
    s := Next(s, CallSchedule);
    LeadsSteps(b, s, 4);
    ChoosesInitTask(s);
    LateArrival(b, Steps(s, 4));
  }

  lemma LateArrival(b: State, s: State)
    requires Inv(b) && Leads(b, s) && Inv(s)
    requires s == TwoTasks(Queue([Task(RUNNING, 1, false), Task(RUNNING, 0, false)], 1, 0), Switching(0))
    ensures Leads(b, LateState())
  {
    hide Leads, Steps, IsRing;
    LeadsOn(b, s, Tick);
    var t := Next(s, Tick);
    assert t == TwoTasks(Queue([Task(RUNNING, 0, false), Task(RUNNING, 1, false)], 0, 0), Switching(0));
    var r := Creates(b, t);
    var l := LateState();
    assert r.q.tasks == l.q.tasks && r.pcs == l.pcs && r.nxt == l.nxt && r.prev == l.prev;
  }

  ghost function ThreeTasks(current: int, next: int, pcs: seq<Pc>): State
    requires |pcs| == 3
  {
    State(Queue([Task(RUNNING, if current == 0 then 0 else 1, false),
                 Task(RUNNING, if current == 1 then 0 else 1, false),
                 Task(RUNNING, if current == 2 then 0 else 1, false)], current, next), pcs, [1, 2, 0], [2, 0, 1])
  }

  /** Task 1 was switched out by a tick before it read `next`, and task 0, whose choice was task 1, a tick before it
      switched: task 1 now finds `next` to be what the tick that brought in task 0 left there. */
  ghost function BackState(): State { ThreeTasks(1, 0, [Deciding(1), Calling, Free(0)]) }

  lemma ThreeTasksValid(current: int, next: int, pcs: seq<Pc>)
    requires 0 <= current < 3 && NOBODY <= next < 3 && |pcs| == 3
    requires forall i :: 0 <= i < 3 ==>
      && (pcs[i].Switching? || pcs[i].Deciding? ==> NOBODY <= pcs[i].arg < 3) && !pcs[i].Adding?
      && (if i == current then Depth(pcs[i]) == 0 else pcs[i].Deciding? || Depth(pcs[i]) == 0)
    ensures Inv(ThreeTasks(current, next, pcs))
  {
    var s := ThreeTasks(current, next, pcs);
    assert TaskOk(s, 0) && TaskOk(s, 1) && TaskOk(s, 2);
  }

  /** Task 1 switches back to task 0, and task 2, which was next, has not had its turn after one effective tick. No
      task arrives. */
  lemma BackChoiceSkips()
    ensures Inv(BackState()) && Misses(BackState(), [Step, Step, Step, Tick], 2)
  {
    var s := BackState();
    ThreeTasksValid(1, 0, [Deciding(1), Calling, Free(0)]);
    StepKeeps(s);
    var s1 := Stepped(s);
    StepKeeps(s1);
    var s2 := Stepped(s1);
    SwitchAndTick(s2);
    assert [Step, Step, Step, Tick][1..][1..] == [Step, Tick];
  }

  /** A tick among three tasks. */
  lemma LeadsTick(b: State, c: int, next: int, pcs: seq<Pc>)
    requires 0 <= c < 3 && NOBODY <= next < 3 && |pcs| == 3 && Depth(pcs[c]) == 0 && !pcs[c].Deciding?
    requires !pcs[List.After(c, 3)].Deciding?
    requires Inv(b) && Inv(ThreeTasks(c, next, pcs)) && Leads(b, ThreeTasks(c, next, pcs))
    ensures var n := List.After(c, 3);
      Inv(ThreeTasks(n, n, pcs)) && Leads(b, ThreeTasks(n, n, pcs))
  {
    var s, n := ThreeTasks(c, next, pcs), List.After(c, 3);
    hide Leads, IsRing;
    LeadsOn(b, s, Tick);
    assert TaskOk(s, c);
    assert Ticked(s).q.tasks == ThreeTasks(n, n, pcs).q.tasks;
    assert Ticked(s) == ThreeTasks(n, n, pcs);
  }

  /** A call of schedule as far as its choice. */
  lemma LeadsChosen(b: State, c: int, next: int, pcs: seq<Pc>)
    requires 0 <= c < 3 && NOBODY <= next < 3 && |pcs| == 3 && pcs[c] == Free(0)
    requires Inv(b) && Inv(ThreeTasks(c, next, pcs)) && Leads(b, ThreeTasks(c, next, pcs))
    ensures var n := List.After(c, 3);
      Inv(ThreeTasks(c, n, pcs[c := Calling])) && Leads(b, ThreeTasks(c, n, pcs[c := Calling]))
  {
    var s, n := ThreeTasks(c, next, pcs), List.After(c, 3);
    hide Leads, IsRing;
    LeadsOn(b, s, CallSchedule);
    var s0 := Next(s, CallSchedule);
    LeadsOn(b, s0, Step);
    var s1 := Stepped(s0);
    LeadsOn(b, s1, Step);
    var s2 := Stepped(s1);
    LeadsOn(b, s2, Step);
    assert s2.q.next == n;
    assert Stepped(s2).q.tasks == s.q.tasks && Stepped(s2).pcs == pcs[c := Calling];
    assert Stepped(s2) == ThreeTasks(c, n, pcs[c := Calling]);
  }

  lemma BackStateReached()
    ensures Leads(Boot(), BackState())
  {
    var b := Boot();
    hide Leads, Steps, IsRing;
    var s := SecondCreated();
    s := Creates(b, s);
    assert s == State(Queue([Task(RUNNING, 0, false), Task(RUNNING, 0, true), Task(RUNNING, 0, true)], 0, NOBODY),
                      [Free(0), Free(0), Free(0)], [1, 2, 0], [2, 0, 1]);
    ThreeStarted(b, s);
    LeadsChosen(b, 0, 0, [Free(0), Calling, Free(0)]);
    assert [Free(0), Calling, Free(0)][0 := Calling] == [Calling, Calling, Free(0)];
    BackArrives(b);
  }

  lemma SecondCreated() returns (s: State)
    ensures Inv(Boot()) && Inv(s) && Leads(Boot(), s)
    ensures s == TwoTasks(Queue([Task(RUNNING, 0, false), Task(RUNNING, 0, true)], 0, NOBODY), Free(0))
  {
    var b := Boot();
    assert Possible(b, []) && Run(b, []) == b;
    hide Leads, Steps, IsRing;
    s := Creates(b, b);
  }

  /** Task 1 is switched out in its call of schedule, and all three have run. */
  lemma ThreeStarted(b: State, s: State)
    requires Inv(b) && Inv(s) && Leads(b, s)
    requires s == State(Queue([Task(RUNNING, 0, false), Task(RUNNING, 0, true), Task(RUNNING, 0, true)], 0, NOBODY),
                        [Free(0), Free(0), Free(0)], [1, 2, 0], [2, 0, 1])
    ensures Inv(ThreeTasks(0, 0, [Free(0), Calling, Free(0)]))
    ensures Leads(b, ThreeTasks(0, 0, [Free(0), Calling, Free(0)]))
  {
    hide Leads, Steps, IsRing;
    LeadsOn(b, s, Tick);
    var s1 := Ticked(s);
    LeadsOn(b, s1, Tick);
    var s2 := Ticked(s1);
    LeadsOn(b, s2, Tick);
    var pcs := [Free(0), Free(0), Free(0)];
    assert Ticked(s2) == ThreeTasks(0, 0, pcs);
    LeadsTick(b, 0, 0, pcs);
    LeadsChosen(b, 1, 1, pcs);
    assert pcs[1 := Calling] == [Free(0), Calling, Free(0)];
    LeadsTick(b, 1, 2, [Free(0), Calling, Free(0)]);
    LeadsTick(b, 2, 2, [Free(0), Calling, Free(0)]);
  }

  lemma BackArrives(b: State)
    requires Inv(b) && Inv(ThreeTasks(0, 1, [Calling, Calling, Free(0)]))
    requires Leads(b, ThreeTasks(0, 1, [Calling, Calling, Free(0)]))
    ensures Leads(b, BackState())
  {
    hide Leads, Steps, IsRing;
    var s, pcs := ThreeTasks(0, 1, [Calling, Calling, Free(0)]), [Switching(1), Calling, Free(0)];
    LeadsOn(b, s, Step);
    assert Stepped(s) == ThreeTasks(0, 1, pcs);
    LeadsTick(b, 0, 1, pcs);
    LeadsTick(b, 1, 1, pcs);
    LeadsTick(b, 2, 2, pcs);
    var t := ThreeTasks(0, 0, pcs);
    LeadsOn(b, t, Step);
    var t1 := Stepped(t);
    LeadsOn(b, t1, Step);
    assert Stepped(t1).q.tasks == BackState().q.tasks && Stepped(t1).pcs == BackState().pcs;
  }

  ghost predicate OnlyTicks(es: seq<Event>) {
    forall i :: 0 <= i < |es| ==> es[i] == Tick
  }

  /** Only the next task on the list is ever considered: if it is not RUNNING, no number of ticks brings any
      other task in, and if it is, one tick does. */
  lemma StalledIff(s: State)
    requires Inv(s) && s.q.tasks[s.q.current].count == 0
    ensures 0 <= s.nxt[s.q.current] < |s.q.tasks|
    ensures (forall es :: Possible(s, es) && OnlyTicks(es) ==> Run(s, es).q.current == s.q.current)
      <==> s.nxt[s.q.current] == s.q.current || s.q.tasks[s.nxt[s.q.current]].state != RUNNING
  {
    assert TaskOk(s, s.q.current);
    NextOnRing(s.nxt, s.prev, |s.nxt|, s.q.current);
    var n := s.nxt[s.q.current];
    if n != s.q.current && IsRunning(s, n) {
      var es := [Tick];
      NextKeeps(s, Tick);
      SwitchesToRunning(s, Tick);
      assert es[1..] == [];
      assert Possible(s, es) && Run(s, es) == Ticked(s);
      assert OnlyTicks(es) && Run(s, es).q.current != s.q.current;
    } else {
      forall es | Possible(s, es) && OnlyTicks(es)
        ensures Run(s, es).q.current == s.q.current
      {
        TicksChangeNothing(s, es);
      }
    }
  }

  lemma {:induction false} TicksChangeNothing(s: State, es: seq<Event>)
    requires Inv(s) && s.q.tasks[s.q.current].count == 0
    requires s.nxt[s.q.current] == s.q.current || !IsRunning(s, s.nxt[s.q.current])
    requires Possible(s, es) && OnlyTicks(es)
    ensures Run(s, es).q.current == s.q.current
    decreases |es|
  {
    if es != [] {
      assert TaskOk(s, s.q.current);
      NextOnRing(s.nxt, s.prev, |s.nxt|, s.q.current);
      NextKeeps(s, Tick);
      var s' := Next(s, Tick);
      hide IsRing;
      assert s'.q.tasks == s.q.tasks;
      TicksChangeNothing(s', es[1..]);
    }
  }
}
