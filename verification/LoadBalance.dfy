/** Load balancing between CPUs (kernel/src/sched/sched.rs). The locks a call takes are released in
    between: what every interleaving keeps is proved of single steals and insertions; what one call
    achieves is proved of a call that runs undisturbed.
  */
module LoadBalance {
  import opened Basics
  import opened Sequences
  import opened Scheduler

  const MAX_CPUS: nat := 4
  const LOAD_IMBALANCE_THRESH: nat := 2

  // ----- queues as values

  /** All tasks on all CPUs. */
  ghost function AllTasks(qs: seq<seq<Task>>): multiset<Task> {
    if qs == [] then multiset{} else multiset(qs[0]) + AllTasks(qs[1..])
  }

  ghost function SumSquares(qs: seq<seq<Task>>): nat {
    if qs == [] then 0 else |qs[0]| * |qs[0]| + SumSquares(qs[1..])
  }

  /** `qs'` is `qs` after task `i` of CPU `src` moved to the end of CPU `dst`'s queue; the
      source had at least three tasks more. */
  ghost predicate Migrated(qs: seq<seq<Task>>, qs': seq<seq<Task>>, src: nat, dst: nat, i: nat) {
    && src < |qs| && dst < |qs| && src != dst && i < |qs[src]|
    && |qs[src]| > |qs[dst]| + LOAD_IMBALANCE_THRESH
    && qs' == Moved(qs, src, dst, i)
  }

  /** Task `i` of `src`, if there is one, goes to the end of the queue of `dst`. */
  ghost function Moved(qs: seq<seq<Task>>, src: nat, dst: nat, i: nat): seq<seq<Task>>
    requires src < |qs| && dst < |qs|
  {
    if i < |qs[src]| then qs[src := Without(qs[src], i)][dst := qs[dst] + [qs[src][i]]] else qs
  }

  lemma {:induction false} AllTasksUpdate(qs: seq<seq<Task>>, c: nat, q: seq<Task>, t: Task)
    requires c < |qs|
    ensures AllTasks(qs[c := q])[t] + multiset(qs[c])[t] == AllTasks(qs)[t] + multiset(q)[t]
  {
    if c > 0 {
      assert qs[c := q][1..] == qs[1..][c - 1 := q];
      AllTasksUpdate(qs[1..], c - 1, q, t);
    } else {
      assert qs[c := q][1..] == qs[1..];
    }
  }

  lemma {:induction false} SumSquaresUpdate(qs: seq<seq<Task>>, c: nat, q: seq<Task>)
    requires c < |qs|
    ensures SumSquares(qs[c := q]) + |qs[c]| * |qs[c]| == SumSquares(qs) + |q| * |q|
  {
    if c > 0 {
      assert qs[c := q][1..] == qs[1..][c - 1 := q];
      SumSquaresUpdate(qs[1..], c - 1, q);
    } else {
      assert qs[c := q][1..] == qs[1..];
    }
  }

  lemma WithoutCount(l: seq<Task>, i: nat, t: Task)
    requires i < |l|
    ensures multiset(l)[t] == multiset(Without(l, i))[t] + if l[i] == t then 1 else 0
  {
    assert l == l[..i] + [l[i]] + l[i + 1..];
  }

  lemma SquaresDrop(n: nat, k: nat, n': nat, k': nat)
    requires n > k + LOAD_IMBALANCE_THRESH && n' == n - 1 && k' == k + 1
    ensures n' * n' + k' * k' + 4 <= n * n + k * k
  {
    assert n' * n' == n * n - 2 * n + 1;
    assert k' * k' == k * k + 2 * k + 1;
  }

  lemma MigrationKeepsTasks(qs: seq<seq<Task>>, qs': seq<seq<Task>>, src: nat, dst: nat, i: nat)
    requires Migrated(qs, qs', src, dst, i)
    ensures AllTasks(qs') == AllTasks(qs)
  {
    var a := Without(qs[src], i);
    var b := qs[dst] + [qs[src][i]];
    forall t
      ensures AllTasks(qs')[t] == AllTasks(qs)[t]
    {
      AllTasksUpdate(qs, src, a, t);
      AllTasksUpdate(qs[src := a], dst, b, t);
      WithoutCount(qs[src], i, t);
    }
  }

  /** A migration moves one task and loses none; the source stays at least as loaded as the
      destination, and the sum of squared loads drops by at least four. */
  lemma MigrationBalances(qs: seq<seq<Task>>, qs': seq<seq<Task>>, src: nat, dst: nat, i: nat)
    requires Migrated(qs, qs', src, dst, i)
    ensures AllTasks(qs') == AllTasks(qs)
    ensures |qs'[src]| >= |qs'[dst]|
    ensures SumSquares(qs') + 4 <= SumSquares(qs)
  {
    MigrationKeepsTasks(qs, qs', src, dst, i);
    var a, b := Without(qs[src], i), qs[dst] + [qs[src][i]];
    SumSquaresUpdate(qs, src, a);
    SumSquaresUpdate(qs[src := a], dst, b);
    SquaresDrop(|qs[src]|, |qs[dst]|, |a|, |b|);
  }

  ghost predicate Migration(qs: seq<seq<Task>>, qs': seq<seq<Task>>) {
    exists src, dst, i :: Migrated(qs, qs', src, dst, i)
  }

  /** A series of states, each obtained from the one before by a migration. */
  ghost predicate MigrationSeries(states: seq<seq<seq<Task>>>) {
    |states| > 1 ==> Migration(states[0], states[1]) && MigrationSeries(states[1..])
  }

  /** With no arrivals only finitely many migrations happen: a series of n of them needs an
      initial sum of squared loads of at least 4n. */
  lemma {:induction false} MigrationsAreFinite(states: seq<seq<seq<Task>>>)
    requires |states| > 0 && MigrationSeries(states)
    ensures 4 * (|states| - 1) + SumSquares(states[|states| - 1]) <= SumSquares(states[0])
    ensures AllTasks(states[|states| - 1]) == AllTasks(states[0])
    decreases |states|
  {
    if |states| > 1 {
      assert Migration(states[0], states[1]);
      var src, dst, i :| Migrated(states[0], states[1], src, dst, i);
      MigrationBalances(states[0], states[1], src, dst, i);
      MigrationsAreFinite(states[1..]);
    }
  }

  // ----- interleaved calls

  /** The queues while several CPUs balance at once: `hands` holds the task, if any, that each CPU
      has stolen and not yet queued, the locks being released in between; `dropped` are the tasks
      that met a full queue. */
  datatype World = World(qs: seq<seq<Task>>, hands: seq<seq<Task>>, dropped: seq<Task>)

  datatype Step =
    | Steal(cpu: nat, src: nat, i: nat) // steal_task under the lock of the source
    | Enqueue(cpu: nat)                 // enqueue_task_locked under the own lock

  predicate Enabled(w: World, s: Step) {
    && |w.hands| == |w.qs| && s.cpu < |w.qs|
    && match s
       case Steal(cpu, src, i) => w.hands[cpu] == [] && src < |w.qs| && i < |w.qs[src]|
       case Enqueue(cpu) => |w.hands[cpu]| == 1
  }

  function Do(w: World, s: Step): World
    requires Enabled(w, s)
  {
    match s
    case Steal(cpu, src, i) =>
      w.(qs := w.qs[src := Without(w.qs[src], i)], hands := w.hands[cpu := [w.qs[src][i]]])
    case Enqueue(cpu) =>
      var t := w.hands[cpu][0];
      if |w.qs[cpu]| < MAX_TASKS then w.(qs := w.qs[cpu := w.qs[cpu] + [t]], hands := w.hands[cpu := []])
      else w.(hands := w.hands[cpu := []], dropped := w.dropped + [t])
  }

  predicate Legal(w: World, run: seq<Step>)
    decreases |run|
  {
    run == [] || (Enabled(w, run[0]) && Legal(Do(w, run[0]), run[1..]))
  }

  function After(w: World, run: seq<Step>): World
    requires Legal(w, run)
    decreases |run|
  {
    if run == [] then w else After(Do(w, run[0]), run[1..])
  }

  /** All tasks: queued, in a hand, or dropped. */
  ghost function Everything(w: World): multiset<Task> {
    AllTasks(w.qs) + AllTasks(w.hands) + multiset(w.dropped)
  }

  lemma StealKeeps(qs: seq<seq<Task>>, hands: seq<seq<Task>>, cpu: nat, src: nat, i: nat, t: Task)
    requires cpu < |hands| && hands[cpu] == [] && src < |qs| && i < |qs[src]|
    ensures AllTasks(qs[src := Without(qs[src], i)])[t] + AllTasks(hands[cpu := [qs[src][i]]])[t]
         == AllTasks(qs)[t] + AllTasks(hands)[t]
  {
    AllTasksUpdate(qs, src, Without(qs[src], i), t);
    AllTasksUpdate(hands, cpu, [qs[src][i]], t);
    WithoutCount(qs[src], i, t);
  }

  lemma EmptyHand(hands: seq<seq<Task>>, cpu: nat, x: Task, t: Task)
    requires cpu < |hands| && hands[cpu] == [x]
    ensures AllTasks(hands[cpu := []])[t] + (if x == t then 1 else 0) == AllTasks(hands)[t]
  {
    AllTasksUpdate(hands, cpu, [], t);
  }

  lemma Appended(qs: seq<seq<Task>>, cpu: nat, x: Task, t: Task)
    requires cpu < |qs|
    ensures AllTasks(qs[cpu := qs[cpu] + [x]])[t] == AllTasks(qs)[t] + if x == t then 1 else 0
  {
    AllTasksUpdate(qs, cpu, qs[cpu] + [x], t);
  }

  /** Counting a task place by place. */
  lemma EverythingAt(qs: seq<seq<Task>>, hands: seq<seq<Task>>, dropped: seq<Task>, t: Task)
    ensures Everything(World(qs, hands, dropped))[t]
         == AllTasks(qs)[t] + AllTasks(hands)[t] + multiset(dropped)[t]
  {
  }

  lemma StepKeepsTasks(w: World, s: Step, t: Task)
    requires Enabled(w, s)
    ensures Everything(Do(w, s))[t] == Everything(w)[t]
  {
    var w' := Do(w, s);
    assert Everything(w')[t] == AllTasks(w'.qs)[t] + AllTasks(w'.hands)[t] + multiset(w'.dropped)[t] by {
      EverythingAt(w'.qs, w'.hands, w'.dropped, t);
    }
    assert Everything(w)[t] == AllTasks(w.qs)[t] + AllTasks(w.hands)[t] + multiset(w.dropped)[t] by {
      EverythingAt(w.qs, w.hands, w.dropped, t);
    }
    PlacesKeepTasks(w, s, t);
  }

  lemma PlacesKeepTasks(w: World, s: Step, t: Task)
    requires Enabled(w, s)
    ensures AllTasks(Do(w, s).qs)[t] + AllTasks(Do(w, s).hands)[t] + multiset(Do(w, s).dropped)[t]
         == AllTasks(w.qs)[t] + AllTasks(w.hands)[t] + multiset(w.dropped)[t]
  {
    if s.Steal? {
      StealKeeps(w.qs, w.hands, s.cpu, s.src, s.i, t);
    } else {
      var x := w.hands[s.cpu][0];
      EmptyHand(w.hands, s.cpu, x, t);
      Appended(w.qs, s.cpu, x, t);
      Dropped(w.dropped, x, t);
    }
  }

  lemma Dropped(l: seq<Task>, x: Task, t: Task)
    ensures multiset(l + [x])[t] == multiset(l)[t] + if x == t then 1 else 0
  {
  }

  /** However the steals and insertions of all CPUs interleave, no task is lost or duplicated; a
      task is dropped only by a full queue. */
  lemma {:induction false} RunKeepsTasks(w: World, run: seq<Step>)
    requires Legal(w, run)
    ensures Everything(After(w, run)) == Everything(w)
    ensures w.dropped <= After(w, run).dropped
    decreases |run|
  {
    if run != [] {
      var w' := Do(w, run[0]);
      forall t
        ensures Everything(w')[t] == Everything(w)[t]
      {
        StepKeepsTasks(w, run[0], t);
      }
      assert Everything(w') == Everything(w);
      RunKeepsTasks(w', run[1..]);
    }
  }

  /** As long as all tasks together fit in one queue, none is dropped. */
  lemma {:induction false} NothingDropped(w: World, run: seq<Step>)
    requires Legal(w, run) && |Everything(w)| <= MAX_TASKS && w.dropped == []
    ensures After(w, run).dropped == []
    decreases |run|
  {
    if run != [] {
      RunKeepsTasks(w, [run[0]]);
      assert After(w, [run[0]]) == Do(w, run[0]) by { assert [run[0]][1..] == []; }
      if run[0].Enqueue? {
        QueueAndHand(w, run[0].cpu);
      }
      NothingDropped(Do(w, run[0]), run[1..]);
    }
  }

  lemma {:induction false} PartSize(qs: seq<seq<Task>>, c: nat)
    requires c < |qs|
    ensures |qs[c]| <= |AllTasks(qs)|
  {
    if c > 0 {
      PartSize(qs[1..], c - 1);
    }
  }

  lemma QueueAndHand(w: World, cpu: nat)
    requires |w.hands| == |w.qs| && cpu < |w.qs|
    ensures |w.qs[cpu]| + |w.hands[cpu]| <= |Everything(w)|
  {
    PartSize(w.qs, cpu);
    PartSize(w.hands, cpu);
  }

  // ----- the choice of the busiest CPU

  /** The highest load the scan has recorded before CPU `n`. */
  function Record(loads: seq<nat>, me: nat, n: nat): (r: nat)
    requires me < |loads| && n <= |loads|
    ensures r >= loads[me]
  {
    if n == 0 then loads[me]
    else
      var r := Record(loads, me, n - 1);
      if loads[n - 1] > r + LOAD_IMBALANCE_THRESH then loads[n - 1] else r
  }

  /** The CPU the scan has chosen before CPU `n`. */
  function Choice(loads: seq<nat>, me: nat, n: nat): (r: Option<nat>)
    requires me < |loads| && n <= |loads|
    ensures r.Some? ==> r.value < n && loads[r.value] == Record(loads, me, n)
    ensures r.None? ==> Record(loads, me, n) == loads[me]
  {
    if n == 0 then None
    else if loads[n - 1] > Record(loads, me, n - 1) + LOAD_IMBALANCE_THRESH then Some(n - 1)
    else Choice(loads, me, n - 1)
  }

  ghost predicate Busiest(loads: seq<nat>, c: nat) {
    c < |loads| && forall d | 0 <= d < |loads| :: loads[d] <= loads[c]
  }

  lemma {:induction false} RecordGrows(loads: seq<nat>, me: nat, k: nat, n: nat)
    requires me < |loads| && k <= n <= |loads|
    ensures Record(loads, me, k) <= Record(loads, me, n)
    ensures forall c | k <= c < n :: loads[c] <= Record(loads, me, n) + LOAD_IMBALANCE_THRESH
    decreases n - k
  {
    if k < n {
      RecordGrows(loads, me, k, n - 1);
    }
  }

  /** The chosen CPU beat the record before it. */
  lemma {:induction false} ChoiceBeatsRecord(loads: seq<nat>, me: nat, n: nat)
    requires me < |loads| && n <= |loads| && Choice(loads, me, n).Some?
    ensures var c := Choice(loads, me, n).value; loads[c] > Record(loads, me, c) + LOAD_IMBALANCE_THRESH
  {
    if n > 0 && Choice(loads, me, n) != Some(n - 1) {
      ChoiceBeatsRecord(loads, me, n - 1);
    }
  }

  lemma {:induction false} RecordStays(loads: seq<nat>, me: nat, f: nat, n: nat)
    requires me < |loads| && Busiest(loads, f) && f < n <= |loads|
    requires loads[f] > Record(loads, me, f) + LOAD_IMBALANCE_THRESH
    ensures Choice(loads, me, n) == Some(f) && Record(loads, me, n) == loads[f]
    decreases n - f
  {
    if n - 1 > f {
      RecordStays(loads, me, f, n - 1);
    }
  }

  /** The scan names a busiest CPU exactly when the first CPU of the highest load exceeds the
      record before it by more than the threshold. */
  lemma BusiestIff(loads: seq<nat>, me: nat, f: nat)
    requires me < |loads| && Busiest(loads, f) && forall c | 0 <= c < f :: loads[c] < loads[f]
    ensures var r := Choice(loads, me, |loads|);
            r.Some? && Busiest(loads, r.value) <==> loads[f] > Record(loads, me, f) + LOAD_IMBALANCE_THRESH
  {
    var r := Choice(loads, me, |loads|);
    if loads[f] > Record(loads, me, f) + LOAD_IMBALANCE_THRESH {
      RecordStays(loads, me, f, |loads|);
    } else if r.Some? && Busiest(loads, r.value) {
      ChoiceBeatsRecord(loads, me, |loads|);
      assert loads[r.value] == loads[f] && f <= r.value;
      RecordGrows(loads, me, f, r.value);
    }
  }

  /** With loads 0, 3, 5 and 0, CPU 0 is told that CPU 1 is the busiest. */
  lemma NotTheBusiest()
    ensures Choice([0, 3, 5, 0], 0, 4) == Some(1) && !Busiest([0, 3, 5, 0], 1)
  {
    var loads := [0, 3, 5, 0];
    assert Record(loads, 0, 1) == 0;
    assert Record(loads, 0, 2) == 3 && Choice(loads, 0, 2) == Some(1);
    assert Record(loads, 0, 3) == 3 && Choice(loads, 0, 3) == Some(1);
    assert loads[2] > loads[1];
  }

  // ----- the run queues of all CPUs

  /** Initialized queues do not share storage. */
  ghost predicate Queued(rqs: seq<RunQueue?>)
    reads set c | 0 <= c < |rqs| && rqs[c] != null :: rqs[c]
    reads set c | 0 <= c < |rqs| && rqs[c] != null :: rqs[c].tasks
  {
    && |rqs| == MAX_CPUS
    && (forall c | 0 <= c < |rqs| && rqs[c] != null :: rqs[c].Valid())
    && Unshared(rqs)
  }

  ghost predicate Unshared(rqs: seq<RunQueue?>) {
    forall c, d | 0 <= c < |rqs| && 0 <= d < |rqs| && c != d && rqs[c] != null && rqs[d] != null ::
      rqs[c] != rqs[d] && rqs[c].tasks != rqs[d].tasks
  }

  /** The queue of a CPU; empty where none is initialized. */
  ghost function QueueOf(rq: RunQueue?): seq<Task>
    requires rq != null ==> rq.Valid()
    reads rq, if rq == null then {} else {rq.tasks}
  {
    if rq == null then [] else rq.Contents()
  }

  /** `qs` are the queues of all CPUs. */
  ghost predicate Describes(qs: seq<seq<Task>>, rqs: seq<RunQueue?>)
    requires Queued(rqs)
    reads set c | 0 <= c < |rqs| && rqs[c] != null :: rqs[c]
    reads set c | 0 <= c < |rqs| && rqs[c] != null :: rqs[c].tasks
  {
    |qs| == |rqs| && forall c | 0 <= c < |rqs| :: qs[c] == QueueOf(rqs[c])
  }

  ghost function Loads(qs: seq<seq<Task>>): (r: seq<nat>)
    ensures |r| == |qs| && forall c | 0 <= c < |qs| :: r[c] == |qs[c]|
  {
    seq(|qs|, c requires 0 <= c < |qs| => |qs[c]|)
  }

  /** `find_busiest_cpu`: a CPU without a queue asks for nothing and counts as idle. */
  method FindBusiestCpu(rqs: seq<RunQueue?>, thisCpu: nat, ghost qs: seq<seq<Task>>) returns (r: Option<nat>)
    requires Queued(rqs) && Describes(qs, rqs) && thisCpu < MAX_CPUS
    ensures r == if rqs[thisCpu] == null then None else Choice(Loads(qs), thisCpu, MAX_CPUS)
  {
    if rqs[thisCpu] == null {
      return None;
    }
    ghost var loads := Loads(qs);
    var thisLoad := rqs[thisCpu].nrRunning;
    r := None;
    var maxLoad := thisLoad;
    for cpu := 0 to MAX_CPUS
      invariant r == Choice(loads, thisCpu, cpu) && maxLoad == Record(loads, thisCpu, cpu)
    {
      if cpu != thisCpu && rqs[cpu] != null {
        var load := rqs[cpu].nrRunning;
        if load > maxLoad + LOAD_IMBALANCE_THRESH {
          maxLoad := load;
          r := Some(cpu);
        }
      }
    }
  }

  /** The choice exceeds this CPU by more than the threshold and no CPU exceeds it by more;
      without a choice no CPU exceeds this one by more. */
  lemma ChoiceBounds(loads: seq<nat>, me: nat)
    requires me < |loads|
    ensures var r := Choice(loads, me, |loads|);
            && (r.Some? ==> r.value != me && loads[r.value] > loads[me] + LOAD_IMBALANCE_THRESH)
            && forall c | 0 <= c < |loads| ::
                 loads[c] <= (if r.Some? then loads[r.value] else loads[me]) + LOAD_IMBALANCE_THRESH
  {
    RecordGrows(loads, me, 0, |loads|);
    if Choice(loads, me, |loads|).Some? {
      ChoiceBeatsRecord(loads, me, |loads|);
    }
  }

  /** The second half of `load_balance`: one task moves from `src` to `dst`, if any is movable; a full
      destination drops it. The loads may be anything by then. */
  method MoveOne(src: RunQueue, dst: RunQueue, pids: map<Task, nat>) returns (moved: bool)
    requires src != dst && src.tasks != dst.tasks && src.Valid() && dst.Valid()
    modifies src`nrRunning, dst`nrRunning, src.tasks, dst.tasks
    ensures src.Valid() && dst.Valid()
    ensures old(src.Dense() && dst.Dense()) ==> src.Dense() && dst.Dense()
    ensures var l := old(src.Contents()); var i := LastMovable(l, src.current, pids, |l|);
            && (moved <==> i < |l|)
            && src.Contents() == (if moved then Without(l, i) else l)
            && dst.Contents() == (if moved && old(dst.nrRunning) < MAX_TASKS then old(dst.Contents()) + [l[i]]
                                  else old(dst.Contents()))
  {
    var t := src.StealTask(pids);
    if t == NONE {
      return false;
    }
    dst.EnqueueTaskLocked(t);
    return true;
  }

  twostate lemma Untouched(rq: RunQueue)
    requires old(rq.Valid()) && unchanged(rq) && unchanged(rq.tasks)
    ensures rq.Valid() && rq.Contents() == old(rq.Contents())
  {
  }

  /** The queues of the two CPUs of a move are those of `qs'`, the others those of `qs`. */
  ghost predicate AfterMove(rqs: seq<RunQueue?>, qs: seq<seq<Task>>, qs': seq<seq<Task>>, src: nat, dst: nat)
    reads set c | 0 <= c < |rqs| && rqs[c] != null :: rqs[c]
    reads set c | 0 <= c < |rqs| && rqs[c] != null :: rqs[c].tasks
  {
    && |rqs| == |qs| == |qs'| && src < |rqs| && dst < |rqs| && src != dst && rqs[src] != null && rqs[dst] != null
    && rqs[src].Valid() && rqs[src].Contents() == qs'[src]
    && rqs[dst].Valid() && rqs[dst].Contents() == qs'[dst]
    && (forall c | 0 <= c < |rqs| && c != src && c != dst && rqs[c] != null ::
          rqs[c].Valid() && rqs[c].Contents() == qs[c])
  }

  lemma AfterMoveDescribes(rqs: seq<RunQueue?>, qs: seq<seq<Task>>, qs': seq<seq<Task>>, src: nat, dst: nat)
    requires AfterMove(rqs, qs, qs', src, dst) && |rqs| == MAX_CPUS && Unshared(rqs)
    requires forall c | 0 <= c < |rqs| && c != src && c != dst :: qs'[c] == qs[c] && (rqs[c] == null ==> qs[c] == [])
    ensures Queued(rqs) && Describes(qs', rqs)
  {
  }

  /** `MoveOne` between two of the CPUs; the queues of the others stay as they are. */
  method MoveBetween(rqs: seq<RunQueue?>, src: nat, dst: nat, pids: map<Task, nat>, ghost qs: seq<seq<Task>>)
    returns (moved: bool, ghost i: nat)
    requires Queued(rqs) && Describes(qs, rqs)
    requires src < MAX_CPUS && dst < MAX_CPUS && src != dst && rqs[src] != null && rqs[dst] != null
    requires rqs[src].nrRunning > rqs[dst].nrRunning + LOAD_IMBALANCE_THRESH
    modifies rqs[src], rqs[dst], rqs[src].tasks, rqs[dst].tasks
    ensures i == LastMovable(qs[src], rqs[src].current, pids, |qs[src]|) && (moved <==> i < |qs[src]|)
    ensures AfterMove(rqs, qs, Moved(qs, src, dst, i), src, dst)
  {
    i := LastMovable(qs[src], rqs[src].current, pids, |qs[src]|);
    moved := MoveOne(rqs[src], rqs[dst], pids);
    forall c | 0 <= c < MAX_CPUS && c != src && c != dst && rqs[c] != null
      ensures rqs[c].Valid() && rqs[c].Contents() == qs[c]
    {
      Untouched(rqs[c]);
    }
  }

  /** `load_balance` on the given CPU: either nothing changes or a movable task of another CPU
      migrates to it. `qs` are the queues before, `qs'` those after. */
  method BalanceLoad(rqs: seq<RunQueue?>, thisCpu: nat, pids: map<Task, nat>, ghost qs: seq<seq<Task>>)
    returns (moved: bool, ghost qs': seq<seq<Task>>, ghost src: nat, ghost i: nat)
    requires Queued(rqs) && Describes(qs, rqs) && thisCpu < MAX_CPUS
    modifies set c | 0 <= c < |rqs| && rqs[c] != null :: rqs[c]
    modifies set c | 0 <= c < |rqs| && rqs[c] != null :: rqs[c].tasks
    ensures Queued(rqs) && Describes(qs', rqs)
    ensures !moved ==> qs' == qs
    ensures moved ==> Migrated(qs, qs', src, thisCpu, i)
    ensures moved ==> |qs[thisCpu]| <= 1 && Choice(Loads(qs), thisCpu, MAX_CPUS) == Some(src)
    ensures moved ==> && rqs[src] != null && i == LastMovable(qs[src], rqs[src].current, pids, |qs[src]|)
                      && var t := qs[src][i];
                         t != NONE && t != rqs[src].current && !(t in pids && pids[t] == 0)
    ensures !moved && rqs[thisCpu] != null && |qs[thisCpu]| <= 1 ==>
              || (forall c | 0 <= c < MAX_CPUS :: |qs[c]| <= |qs[thisCpu]| + LOAD_IMBALANCE_THRESH)
              || (src < MAX_CPUS && rqs[src] != null && |qs[src]| > |qs[thisCpu]| + LOAD_IMBALANCE_THRESH
                  && forall j | 0 <= j < |qs[src]| :: !Movable(qs[src][j], rqs[src].current, pids))
  {
    if rqs[thisCpu] == null || rqs[thisCpu].nrRunning > 1 {
      return false, qs, 0, 0;
    }
    ChoiceBounds(Loads(qs), thisCpu);
    var busiest := FindBusiestCpu(rqs, thisCpu, qs);
    if busiest.None? {
      return false, qs, 0, 0;
    }
    src := busiest.value;
    moved, i := MoveBetween(rqs, busiest.value, thisCpu, pids, qs);
    qs' := Moved(qs, src, thisCpu, i);
    AfterMoveDescribes(rqs, qs, qs', src, thisCpu);
  }
}
