/** The run queue of one CPU (kernel/src/sched/sched.rs): round-robin selection of the next
    task, removal of a task by another CPU, and insertion at the end.
  */
module Scheduler {
  import opened Sequences

  const MAX_TASKS: nat := 256

  /** Tasks are named by their address; 0 is the null pointer. */
  type Task = nat
  const NONE: Task := 0

  /** What `pick_next_task` sees: the slots, the current task and the tasks in state Running. */
  datatype View = View(slots: seq<Task>, current: Task, running: set<Task>)

  /** Slot `i` holds a task that may be switched to. */
  predicate Eligible(v: View, i: nat)
    requires i < |v.slots|
  {
    v.slots[i] != NONE && v.slots[i] != v.current && v.slots[i] in v.running
  }

  /** Positions count on around the slots. */
  function Slot(p: nat): (i: nat)
    ensures i < MAX_TASKS
  {
    p % MAX_TASKS
  }

  /** The first position from `p` on, before `end`, whose slot is eligible; else `end`. */
  function FirstFrom(v: View, p: nat, end: nat): (r: nat)
    requires |v.slots| == MAX_TASKS && p <= end
    ensures p <= r <= end
    ensures r < end ==> Eligible(v, Slot(r))
    ensures forall e | p <= e < r :: !Eligible(v, Slot(e))
    decreases end - p
  {
    if p == end || Eligible(v, Slot(p)) then p else FirstFrom(v, p + 1, end)
  }

  /** The first eligible position after the index, within one round. */
  function Target(v: View, index: nat): (r: nat)
    requires |v.slots| == MAX_TASKS
    ensures index < r <= index + MAX_TASKS + 1
    ensures r <= index + MAX_TASKS ==> Eligible(v, Slot(r))
    ensures forall e | index < e < r :: !Eligible(v, Slot(e))
  {
    FirstFrom(v, index + 1, index + MAX_TASKS + 1)
  }

  /** The index after a pick. */
  function NextIndex(v: View, index: nat): nat
    requires |v.slots| == MAX_TASKS
  {
    if Target(v, index) <= index + MAX_TASKS then Slot(Target(v, index)) else index
  }

  /** The task returned when some slot is eligible. */
  function Picked(v: View, index: nat): Task
    requires |v.slots| == MAX_TASKS
  {
    if Target(v, index) <= index + MAX_TASKS then v.slots[Slot(Target(v, index))] else NONE
  }

  // ----- bounded waiting

  /** Cyclic distance from the index to slot `s`, between 1 and MAX_TASKS. */
  function Distance(index: nat, s: nat): (d: nat)
    requires index < MAX_TASKS && s < MAX_TASKS
    ensures 1 <= d <= MAX_TASKS && Slot(index + d) == s
  {
    if s > index then s - index else s + MAX_TASKS - index
  }

  /** Task `t` sits in slot `s`, ready but not current. */
  predicate Ready(v: View, s: nat, t: Task) {
    |v.slots| == MAX_TASKS && s < MAX_TASKS && v.slots[s] == t && t != NONE && t != v.current && t in v.running
  }

  /** Advancing by less than the distance shortens it by that much. */
  lemma Advance(index: nat, s: nat, d: nat)
    requires index < MAX_TASKS && s < MAX_TASKS && 1 <= d < Distance(index, s)
    ensures Distance(Slot(index + d), s) == Distance(index, s) - d
  {
    assert Slot(index + d) == if index + d < MAX_TASKS then index + d else index + d - MAX_TASKS;
  }

  /** One pick either returns `t` or brings the index strictly closer to its slot. */
  lemma PickApproaches(v: View, index: nat, s: nat, t: Task)
    requires index < MAX_TASKS && Ready(v, s, t)
    ensures NextIndex(v, index) < MAX_TASKS
    ensures Picked(v, index) == t || Distance(NextIndex(v, index), s) < Distance(index, s)
  {
    var d := Target(v, index) - index;
    assert Eligible(v, Slot(index + Distance(index, s)));
    assert d <= Distance(index, s);
    if d < Distance(index, s) {
      Advance(index, s, d);
    }
  }

  /** No pick of the series, the slots, states and current task changing freely in between,
      returns `t`. */
  predicate NeverPicked(views: seq<View>, index: nat, t: Task)
    requires forall i | 0 <= i < |views| :: |views[i].slots| == MAX_TASKS
    decreases |views|
  {
    views != [] ==> Picked(views[0], index) != t && NeverPicked(views[1..], NextIndex(views[0], index), t)
  }

  /** Bounded waiting: a task that stays ready in its slot is passed over fewer times than
      the distance from the index to its slot. */
  lemma {:induction false} WaitIsBounded(views: seq<View>, index: nat, s: nat, t: Task)
    requires index < MAX_TASKS && s < MAX_TASKS
    requires forall i | 0 <= i < |views| :: |views[i].slots| == MAX_TASKS && Ready(views[i], s, t)
    requires NeverPicked(views, index, t)
    ensures |views| < Distance(index, s) <= MAX_TASKS
    decreases |views|
  {
    if views != [] {
      assert Ready(views[0], s, t);
      PickApproaches(views[0], index, s, t);
      WaitIsBounded(views[1..], NextIndex(views[0], index), s, t);
    }
  }

  /** So among any MAX_TASKS consecutive picks one returns the task. */
  lemma PickedWithinARound(views: seq<View>, index: nat, s: nat, t: Task)
    requires index < MAX_TASKS && s < MAX_TASKS && |views| == MAX_TASKS
    requires forall i | 0 <= i < |views| :: |views[i].slots| == MAX_TASKS && Ready(views[i], s, t)
    ensures !NeverPicked(views, index, t)
  {
    if NeverPicked(views, index, t) {
      WaitIsBounded(views, index, s, t);
    }
  }

  /** Round robin, in terms of the slots alone: if some slot holds a task in state Running other than
      the current one, the index moves to the nearest such slot after it, and every slot passed over
      is empty or holds the current task or one that does not run. Otherwise the index stays. */
  lemma PickIsNearest(slots: seq<Task>, current: Task, running: set<Task>, index: nat)
    requires |slots| == MAX_TASKS && index < MAX_TASKS
    ensures var v := View(slots, current, running); var j := NextIndex(v, index);
            if exists i | 0 <= i < MAX_TASKS :: slots[i] != NONE && slots[i] != current && slots[i] in running then
              && j < MAX_TASKS && Picked(v, index) == slots[j]
              && slots[j] != NONE && slots[j] != current && slots[j] in running
              && forall i | 0 <= i < MAX_TASKS && Distance(index, i) < Distance(index, j) ::
                   slots[i] == NONE || slots[i] == current || slots[i] !in running
            else j == index && Picked(v, index) == NONE
  {
    var v := View(slots, current, running);
    var p := Target(v, index);
    if i :| 0 <= i < MAX_TASKS && slots[i] != NONE && slots[i] != current && slots[i] in running {
      assert Eligible(v, Slot(index + Distance(index, i)));
      assert p <= index + MAX_TASKS;
      assert Distance(index, Slot(p)) == p - index by { DistanceUnique(index, p); }
      forall i | 0 <= i < MAX_TASKS && Distance(index, i) < p - index
        ensures !Eligible(v, i)
      {
        assert !Eligible(v, Slot(index + Distance(index, i)));
      }
    }
  }

  lemma DistanceUnique(index: nat, p: nat)
    requires index < MAX_TASKS && index < p <= index + MAX_TASKS
    ensures Distance(index, Slot(p)) == p - index
  {
    assert Slot(p) == if p < MAX_TASKS then p else p - MAX_TASKS;
  }

  // ----- the run queue

  /** Position, counted from the end, of the first task that may be taken away: not the idle
      task (process number 0) and not the current one; |l| when there is none. */
  function LastMovable(l: seq<Task>, current: Task, pids: map<Task, nat>, n: nat): (i: nat)
    requires n <= |l|
    ensures i < n || i == |l|
    ensures i < n ==> Movable(l[i], current, pids)
    ensures forall j | 0 <= j < n && (i < n ==> i < j) :: !Movable(l[j], current, pids)
  {
    if n == 0 then |l| else if Movable(l[n - 1], current, pids) then n - 1 else LastMovable(l, current, pids, n - 1)
  }

  predicate Movable(t: Task, current: Task, pids: map<Task, nat>) {
    t != NONE && !(t in pids && pids[t] == 0) && t != current
  }

  class RunQueue {
    const tasks: array<Task>
    var current: Task
    var nrRunning: nat
    var idle: Task
    var schedIndex: nat

    ghost predicate Valid()
      reads this
    {
      tasks.Length == MAX_TASKS && nrRunning <= MAX_TASKS && schedIndex < MAX_TASKS
    }

    /** No empty slot below `nrRunning`, none filled above. */
    ghost predicate Dense()
      reads this, tasks
    {
      && Valid()
      && (forall i | 0 <= i < nrRunning :: tasks[i] != NONE)
      && (forall i | nrRunning <= i < MAX_TASKS :: tasks[i] == NONE)
    }

    ghost function Contents(): seq<Task>
      requires Valid()
      reads this, tasks
    {
      tasks[..nrRunning]
    }

    constructor (idle: Task)
      ensures Dense() && Contents() == [] && this.idle == idle && fresh(tasks)
    {
      tasks := new Task[MAX_TASKS](_ => NONE);
      current, nrRunning, this.idle, schedIndex := idle, 0, idle, 0;
    }

    /** `pick_next_task`, given which tasks are Running. */
    method PickNextTask(running: set<Task>) returns (t: Task)
      requires Valid()
      modifies this`schedIndex
      ensures Valid()
      ensures t in running || t == idle
      ensures if exists i :: 0 <= i < MAX_TASKS && tasks[i] != NONE && tasks[i] != current && tasks[i] in running then
                && t == tasks[schedIndex] && t != NONE && t != current && t in running
                && forall i | 0 <= i < MAX_TASKS && Distance(old(schedIndex), i)
                                                  < Distance(old(schedIndex), schedIndex) ::
                     tasks[i] == NONE || tasks[i] == current || tasks[i] !in running
              else
                && schedIndex == old(schedIndex)
                && t == if current != NONE && current in running then current else idle
      ensures var v := View(tasks[..], current, running);
              schedIndex == NextIndex(v, old(schedIndex)) && (Picked(v, old(schedIndex)) in {NONE, t})
    {
      PickIsNearest(tasks[..], current, running, schedIndex);
      var p := FindEligible(running);
      if p <= schedIndex + MAX_TASKS {
        schedIndex := p % MAX_TASKS;
        return tasks[schedIndex];
      }
      if current != NONE && current in running {
        return current;
      }
      return idle;
    }

    /** The loop of `pick_next_task`. */
    method FindEligible(running: set<Task>) returns (p: nat)
      requires Valid()
      ensures p == Target(View(tasks[..], current, running), schedIndex)
    {
      ghost var v := View(tasks[..], current, running);
      ghost var end := schedIndex + MAX_TASKS + 1;
      for offset := 1 to MAX_TASKS + 1
        invariant FirstFrom(v, schedIndex + offset, end) == FirstFrom(v, schedIndex + 1, end)
      {
        var task := tasks[(schedIndex + offset) % MAX_TASKS];
        assert task == v.slots[Slot(schedIndex + offset)];
        if task != NONE && task != current && task in running {
          return schedIndex + offset;
        }
      }
      return schedIndex + MAX_TASKS + 1;
    }

    /** `steal_task`: takes the last movable task and closes the gap. Slots may be empty. */
    method StealTask(pids: map<Task, nat>) returns (t: Task)
      requires Valid()
      modifies this`nrRunning, tasks
      ensures Valid() && (old(Dense()) ==> Dense())
      ensures var l := old(Contents()); var i := LastMovable(l, current, pids, |l|);
              if i == |l| then t == NONE && Contents() == l
              else t == l[i] && Contents() == Without(l, i)
      ensures t != NONE ==> t in old(Contents()) && t != current && !(t in pids && pids[t] == 0)
      ensures t == NONE ==> forall x | x in old(Contents()) :: x == NONE || x == current || (x in pids && pids[x] == 0)
      ensures forall j | old(nrRunning) <= j < MAX_TASKS :: tasks[j] == old(tasks[j])
    {
      ghost var l := Contents();
      var i := FindMovable(pids);
      if i == nrRunning {
        return NONE;
      }
      t := tasks[i];
      tasks[i] := NONE;
      nrRunning := nrRunning - 1;
      CloseGap(i, l);
    }

    /** The search loop of `steal_task`; `nrRunning` when no task is movable. */
    method FindMovable(pids: map<Task, nat>) returns (i: nat)
      requires Valid()
      ensures i == LastMovable(Contents(), current, pids, nrRunning)
    {
      ghost var l := Contents();
      i := nrRunning;
      while i > 0
        invariant i <= nrRunning
        invariant LastMovable(l, current, pids, i) == LastMovable(l, current, pids, nrRunning)
      {
        i := i - 1;
        var task := tasks[i];
        assert task == l[i];
        if task != NONE && !(task in pids && pids[task] == 0) && task != current {
          return;
        }
      }
      i := nrRunning;
    }

    /** The shifting loop of `steal_task`. */
    method CloseGap(i: nat, ghost l: seq<Task>)
      requires Valid() && |l| == nrRunning + 1 <= MAX_TASKS && i < |l|
      requires tasks[..nrRunning + 1] == l[i := NONE]
      modifies tasks
      ensures Contents() == Without(l, i) && tasks[nrRunning] == NONE
      ensures forall j | nrRunning < j < MAX_TASKS :: tasks[j] == old(tasks[j])
      ensures forall j | 0 <= j < nrRunning :: tasks[j] in l
    {
      for j := i to nrRunning
        invariant forall x | 0 <= x < i :: tasks[x] == l[x]
        invariant forall x | i <= x < j :: tasks[x] == l[x + 1]
        invariant forall x | j < x <= nrRunning :: tasks[x] == l[x]
        invariant forall x | nrRunning < x < MAX_TASKS :: tasks[x] == old(tasks[x])
      {
        tasks[j] := tasks[j + 1];
      }
      tasks[nrRunning] := NONE;
      WithoutAt(l, i);
    }

    /** `enqueue_task_locked`: a full queue drops the task. */
    method EnqueueTaskLocked(t: Task)
      requires Valid()
      modifies this`nrRunning, tasks
      ensures Valid() && (old(Dense()) && t != NONE ==> Dense())
      ensures Contents() == if old(nrRunning) < MAX_TASKS then old(Contents()) + [t] else old(Contents())
      ensures forall j | old(nrRunning) < j < MAX_TASKS :: tasks[j] == old(tasks[j])
    {
      if nrRunning >= MAX_TASKS {
        return;
      }
      tasks[nrRunning] := t;
      nrRunning := nrRunning + 1;
    }
  }
}
