/** Semaphores and mutexes (kernel/src/sync/semaphore.rs) as a protocol: any number of threads
    interleave the atomic operations on `count` that `down`, `down_interruptible`,
    `down_trylock` and `up` perform. The current task is taken to be always available.
  */
module Semaphores {
  import opened Counting

  type Thread = nat

  /** Where a thread stands. Between two atomic operations it may be interrupted. */
  datatype Place =
    | Idle         // in no semaphore operation
    | Holding      // a down returned to it and it has not called up
    | Again        // down_interruptible failed its own fetch_sub and calls down
    | Waiting      // down failed its first fetch_sub: head of the wait loop
    | Trying       // the loop saw count > 0 and is about to fetch_sub again
    | Restoring    // that fetch_sub failed too: about to fetch_add
    | Parked       // on the wait queue
    | Undoing      // down_trylock failed: about to fetch_add

  /** The atomic operations, by the source function they belong to. */
  datatype Action =
    | Down              // first fetch_sub of down
    | DownInterruptible // fetch_sub of down_interruptible
    | DownTrylock       // fetch_sub of down_trylock
    | Check             // load of count at the head of the wait loop
    | Retry             // fetch_sub inside the loop
    | Restore           // fetch_add inside the loop
    | Wake              // return from schedule, back to the head of the loop
    | Undo              // fetch_add of down_trylock
    | Up                // fetch_add of up

  /** `slow` counts the first decrements that failed and that nothing gives back. */
  datatype State = State(count: int, at: map<Thread, Place>, slow: nat)

  datatype Move = Move(thread: Thread, action: Action)

  predicate Enabled(s: State, m: Move) {
    m.thread in s.at &&
    match s.at[m.thread]
    case Idle => m.action == Down || m.action == DownInterruptible || m.action == DownTrylock
    case Holding => m.action == Up
    case Again => m.action == Down
    case Waiting => m.action == Check
    case Trying => m.action == Retry
    case Restoring => m.action == Restore
    case Parked => m.action == Wake
    case Undoing => m.action == Undo
  }

  function Do(s: State, m: Move): State
    requires Enabled(s, m)
  {
    var t := m.thread;
    match m.action
    case Down =>
      if s.count > 0 then State(s.count - 1, s.at[t := Holding], s.slow)
      else State(s.count - 1, s.at[t := Waiting], s.slow + 1)
    case DownInterruptible =>
      if s.count > 0 then State(s.count - 1, s.at[t := Holding], s.slow)
      else State(s.count - 1, s.at[t := Again], s.slow + 1)
    case DownTrylock =>
      if s.count > 0 then State(s.count - 1, s.at[t := Holding], s.slow)
      else State(s.count - 1, s.at[t := Undoing], s.slow)
    case Check => s.(at := s.at[t := if s.count > 0 then Trying else Parked])
    case Retry =>
      if s.count > 0 then State(s.count - 1, s.at[t := Holding], s.slow)
      else State(s.count - 1, s.at[t := Restoring], s.slow)
    case Restore => State(s.count + 1, s.at[t := Parked], s.slow)
    case Wake => s.(at := s.at[t := Waiting])
    case Undo => State(s.count + 1, s.at[t := Idle], s.slow)
    case Up => State(s.count + 1, s.at[t := Idle], s.slow)
  }

  /** A sequence of moves that is possible from `s`. */
  predicate Legal(s: State, run: seq<Move>)
    decreases |run|
  {
    run == [] || (Enabled(s, run[0]) && Legal(Do(s, run[0]), run[1..]))
  }

  function After(s: State, run: seq<Move>): State
    requires Legal(s, run)
    decreases |run|
  {
    if run == [] then s else After(Do(s, run[0]), run[1..])
  }

  /** `Semaphore::new(value)`, seen by the given threads. */
  function Initial(value: int, threads: set<Thread>): State {
    State(value, map t | t in threads :: Idle, 0)
  }

  ghost function Holders(s: State): set<Thread> {
    set t | t in s.at && s.at[t] == Holding
  }

  /** Threads whose failed decrement is about to be given back. */
  ghost function Owing(s: State): set<Thread> {
    set t | t in s.at && (s.at[t] == Restoring || s.at[t] == Undoing)
  }

  /** The value is shared out among the count, the holders, and the decrements that failed. */
  ghost predicate Accounts(value: int, s: State) {
    && s.count == value - |Holders(s)| - |Owing(s)| - s.slow
    && (Holders(s) != {} ==> |Holders(s)| <= value)
  }

  lemma MoveSets(s: State, m: Move)
    requires Enabled(s, m)
    ensures var s' := Do(s, m); var t := m.thread;
            && Holders(s') == (if s'.at[t] == Holding then Holders(s) + {t} else Holders(s) - {t})
            && Owing(s') == (if s'.at[t] == Restoring || s'.at[t] == Undoing then Owing(s) + {t} else Owing(s) - {t})
  {
  }

  lemma MoveSizes(s: State, m: Move)
    requires Enabled(s, m)
    ensures var s' := Do(s, m); var t := m.thread;
            && |Holders(s')| == |Holders(s)| + (if s'.at[t] == Holding then 1 else 0)
                                             - (if s.at[t] == Holding then 1 else 0)
            && |Owing(s')| == |Owing(s)| + (if s'.at[t] == Restoring || s'.at[t] == Undoing then 1 else 0)
                                         - (if s.at[t] == Restoring || s.at[t] == Undoing then 1 else 0)
  {
    MoveSets(s, m);
    var t := m.thread;
    assert t in Holders(s) <==> s.at[t] == Holding;
    assert t in Owing(s) <==> s.at[t] == Restoring || s.at[t] == Undoing;
    assert s.at[t] == Holding ==> m.action == Up;
  }

  lemma MoveKeepsAccounts(value: int, s: State, m: Move)
    requires Enabled(s, m) && Accounts(value, s)
    ensures Accounts(value, Do(s, m))
  {
    MoveSizes(s, m);
  }

  lemma {:induction false} RunKeepsAccounts(value: int, s: State, run: seq<Move>)
    requires Legal(s, run) && Accounts(value, s)
    ensures Accounts(value, After(s, run))
    decreases |run|
  {
    if run != [] {
      MoveKeepsAccounts(value, s, run[0]);
      RunKeepsAccounts(value, Do(s, run[0]), run[1..]);
    }
  }

  lemma InitialAccounts(value: int, threads: set<Thread>)
    ensures Accounts(value, Initial(value, threads))
  {
    assert Holders(Initial(value, threads)) == {};
    assert Owing(Initial(value, threads)) == {};
  }

  /** Safety: after any interleaving, no more threads hold the semaphore than its initial
      value allows; and the count is what is left after the holders and the failed decrements. */
  lemma AtMostValueHold(value: int, threads: set<Thread>, run: seq<Move>)
    requires Legal(Initial(value, threads), run)
    ensures var s := After(Initial(value, threads), run);
            && |Holders(s)| <= (if value > 0 then value else 0)
            && s.count == value - |Holders(s)| - |Owing(s)| - s.slow
  {
    InitialAccounts(value, threads);
    RunKeepsAccounts(value, Initial(value, threads), run);
  }

  /** `Mutex` is a semaphore of value 1: no two threads hold it at once. */
  lemma MutualExclusion(threads: set<Thread>, run: seq<Move>, t: Thread, u: Thread)
    requires Legal(Initial(1, threads), run)
    requires var s := After(Initial(1, threads), run); t in Holders(s) && u in Holders(s)
    ensures t == u
  {
    AtMostValueHold(1, threads, run);
    var s := After(Initial(1, threads), run);
    if t != u {
      PairSize(Holders(s), t, u);
    }
  }

  lemma PairSize(x: set<Thread>, t: Thread, u: Thread)
    requires t in x && u in x && t != u
    ensures |x| >= 2
  {
    assert {t, u} <= x;
    SubsetSize({t, u}, x);
  }

  // ----- what a contended down costs

  /** In every reachable state a fresh `down` succeeds at once exactly when the holders, the
      decrements about to be given back and all slow entries so far leave a permit. */
  lemma DownSucceedsIff(value: int, threads: set<Thread>, run: seq<Move>, t: Thread)
    requires Legal(Initial(value, threads), run)
    requires var s := After(Initial(value, threads), run); t in s.at && s.at[t] == Idle
    ensures var s := After(Initial(value, threads), run);
            Do(s, Move(t, Down)).at[t] == Holding <==> |Holders(s)| + |Owing(s)| + s.slow < value
  {
    AtMostValueHold(value, threads, run);
  }

  /** A slow entry is never given back. */
  lemma {:induction false} SlowGrows(s: State, run: seq<Move>)
    requires Legal(s, run)
    ensures s.slow <= After(s, run).slow
    decreases |run|
  {
    if run != [] {
      SlowGrows(Do(s, run[0]), run[1..]);
    }
  }

  /** With no permit left no move acquires the semaphore. */
  lemma NoPermit(s: State, m: Move)
    requires s.count <= 0 && Enabled(s, m)
    ensures Do(s, m).at[m.thread] != Holding && Do(s, m).slow >= s.slow
  {
  }

  lemma ExhaustedStep(value: int, s: State, m: Move)
    requires Accounts(value, s) && s.slow >= value && Enabled(s, m)
    ensures Accounts(value, Do(s, m)) && Do(s, m).slow >= value && Holders(Do(s, m)) <= Holders(s)
  {
    assert s.count <= 0;
    NoPermit(s, m);
    assert Holders(Do(s, m)) <= Holders(s) by { MoveSets(s, m); }
    assert Accounts(value, Do(s, m)) by { MoveKeepsAccounts(value, s, m); }
  }

  /** The move gives its thread the semaphore. */
  predicate Acquires(s: State, m: Move) {
    Enabled(s, m) && s.at[m.thread] != Holding && Do(s, m).at[m.thread] == Holding
  }

  /** Some continuation of the run ends with a thread acquiring the semaphore. */
  ghost predicate Acquirable(s: State) {
    exists run, m :: Legal(s, run) && Acquires(After(s, run), m)
  }

  /** Once as many downs have been contended as the semaphore has permits, no thread acquires
      it ever again, even when every holder has released it. */
  lemma {:induction false} ExhaustedForever(value: int, s: State, run: seq<Move>, m: Move)
    requires Accounts(value, s) && s.slow >= value && Legal(s, run)
    ensures !Acquires(After(s, run), m) && Holders(After(s, run)) <= Holders(s)
    decreases |run|
  {
    if run != [] {
      ExhaustedStep(value, s, run[0]);
      ExhaustedForever(value, Do(s, run[0]), run[1..], m);
    } else if Enabled(s, m) {
      NoPermit(s, m);
    }
  }

  lemma AcquirableBefore(s: State, m: Move)
    requires Enabled(s, m) && Acquirable(Do(s, m))
    ensures Acquirable(s)
  {
    var run, last :| Legal(Do(s, m), run) && Acquires(After(Do(s, m), run), last);
    RunStep(s, m, run);
    assert Legal(s, [m] + run) && Acquires(After(s, [m] + run), last);
  }

  lemma AcquirableNow(s: State, m: Move)
    requires Acquires(s, m)
    ensures Acquirable(s)
  {
    assert Legal(s, []) && Acquires(After(s, []), m);
  }

  /** With a permit left, any thread that holds nothing and owes nothing can get it. */
  lemma AnyThreadAcquires(s: State, t: Thread)
    requires s.count > 0 && t in s.at && s.at[t] != Holding && s.at[t] != Restoring && s.at[t] != Undoing
    ensures Acquirable(s)
    decreases if s.at[t] == Parked then 2 else if s.at[t] == Waiting then 1 else 0
  {
    match s.at[t]
    case Idle => AcquirableNow(s, Move(t, Down));
    case Again => AcquirableNow(s, Move(t, Down));
    case Trying => AcquirableNow(s, Move(t, Retry));
    case Waiting =>
      AnyThreadAcquires(Do(s, Move(t, Check)), t);
      AcquirableBefore(s, Move(t, Check));
    case Parked =>
      AnyThreadAcquires(Do(s, Move(t, Wake)), t);
      AcquirableBefore(s, Move(t, Wake));
  }

  /** While fewer downs have been contended than there are permits, the holders can release, the
      owing threads can give back, and then any thread can acquire. */
  lemma {:induction false} StillAcquirable(value: int, s: State, t: Thread)
    requires Accounts(value, s) && s.slow < value && t in s.at
    ensures Acquirable(s)
    decreases |Holders(s)| + |Owing(s)|
  {
    if u :| u in s.at && (s.at[u] == Holding || s.at[u] == Restoring || s.at[u] == Undoing) {
      var m := Move(u, if s.at[u] == Holding then Up else if s.at[u] == Restoring then Restore else Undo);
      MoveSizes(s, m);
      MoveKeepsAccounts(value, s, m);
      StillAcquirable(value, Do(s, m), t);
      AcquirableBefore(s, m);
    } else {
      assert Holders(s) == {} && Owing(s) == {};
      AnyThreadAcquires(s, t);
    }
  }

  lemma AcquirableIfAccounts(value: int, s: State, t: Thread)
    requires Accounts(value, s) && t in s.at
    ensures Acquirable(s) <==> s.slow < value
  {
    if s.slow < value {
      StillAcquirable(value, s, t);
    } else {
      forall later, m | Legal(s, later)
        ensures !Acquires(After(s, later), m)
      {
        ExhaustedForever(value, s, later, m);
      }
    }
  }

  /** In every reachable state the semaphore can be acquired some time later exactly when fewer
      downs have been contended than it has permits. */
  lemma AcquirableIff(value: int, threads: set<Thread>, run: seq<Move>, t: Thread)
    requires Legal(Initial(value, threads), run) && t in threads
    ensures var s := After(Initial(value, threads), run); Acquirable(s) <==> s.slow < value
  {
    var s := After(Initial(value, threads), run);
    InitialAccounts(value, threads);
    RunKeepsAccounts(value, Initial(value, threads), run);
    RunKeepsThreads(Initial(value, threads), run);
    AcquirableIfAccounts(value, s, t);
  }

  lemma {:induction false} RunKeepsThreads(s: State, run: seq<Move>)
    requires Legal(s, run)
    ensures After(s, run).at.Keys == s.at.Keys
    decreases |run|
  {
    if run != [] {
      RunKeepsThreads(Do(s, run[0]), run[1..]);
    }
  }

  /** A mutex dies of its first contention: whatever happens later, nobody acquires it again. */
  lemma ContendedMutexIsDead(threads: set<Thread>, run: seq<Move>, t: Thread)
    requires Legal(Initial(1, threads), run) && t in threads
    ensures var s := After(Initial(1, threads), run); Acquirable(s) <==> s.slow == 0
  {
    AcquirableIff(1, threads, run, t);
  }

  lemma RunStep(s: State, m: Move, run: seq<Move>)
    requires Enabled(s, m) && Legal(Do(s, m), run)
    ensures Legal(s, [m] + run) && After(s, [m] + run) == After(Do(s, m), run)
  {
    assert ([m] + run)[1..] == run;
  }

  /** Such a contention is any two threads locking and the first unlocking: the count ends at 0
      with nobody holding the mutex. */
  lemma ContentionExample(threads: set<Thread>, t: Thread, u: Thread)
    requires t in threads && u in threads && t != u
    ensures var run := [Move(t, Down)] + ([Move(u, Down)] + ([Move(t, Up)] + []));
            && Legal(Initial(1, threads), run)
            && var s := After(Initial(1, threads), run);
               s.slow == 1 && s.count == 0 && Holders(s) == {}
  {
    var s0 := Initial(1, threads);
    var s1 := Do(s0, Move(t, Down));
    var s2 := Do(s1, Move(u, Down));
    var s3 := Do(s2, Move(t, Up));
    RunStep(s2, Move(t, Up), []);
    RunStep(s1, Move(u, Down), [Move(t, Up)] + []);
    RunStep(s0, Move(t, Down), [Move(u, Down)] + ([Move(t, Up)] + []));
    assert After(s3, []) == s3;
    assert forall x | x in s3.at :: s3.at[x] != Holding;
  }

  lemma TwoMoves(s: State, m: Move, n: Move)
    requires Enabled(s, m) && Enabled(Do(s, m), n)
    ensures Legal(s, [m, n]) && After(s, [m, n]) == Do(Do(s, m), n)
  {
    assert [m] + [n] == [m, n] && [n] + [] == [n];
    RunStep(Do(s, m), n, []);
    RunStep(s, m, [n]);
  }

  /** What a call costs that finds no permit. `down` takes one for good, `down_interruptible`, which
      goes on to call `down`, takes two; a failed `down_trylock` leaves the state as it was, and so
      does a failed second attempt inside the wait loop, but for parking the thread. */
  lemma ContendedCosts(s: State, t: Thread)
    requires s.count <= 0 && t in s.at
    ensures s.at[t] == Idle ==>
              && Do(s, Move(t, Down)) == State(s.count - 1, s.at[t := Waiting], s.slow + 1)
              && Legal(s, [Move(t, DownInterruptible), Move(t, Down)])
              && After(s, [Move(t, DownInterruptible), Move(t, Down)])
                 == State(s.count - 2, s.at[t := Waiting], s.slow + 2)
              && Legal(s, [Move(t, DownTrylock), Move(t, Undo)])
              && After(s, [Move(t, DownTrylock), Move(t, Undo)]) == s
    ensures s.at[t] == Trying ==>
              && Legal(s, [Move(t, Retry), Move(t, Restore)])
              && After(s, [Move(t, Retry), Move(t, Restore)]) == s.(at := s.at[t := Parked])
  {
    if s.at[t] == Idle {
      TwoMoves(s, Move(t, DownInterruptible), Move(t, Down));
      TwoMoves(s, Move(t, DownTrylock), Move(t, Undo));
      assert s.at[t := Undoing][t := Idle] == s.at;
      assert s.at[t := Again][t := Waiting] == s.at[t := Waiting];
    } else if s.at[t] == Trying {
      TwoMoves(s, Move(t, Retry), Move(t, Restore));
      assert s.at[t := Restoring][t := Parked] == s.at[t := Parked];
    }
  }

  /** A waiting thread that finds a permit, and is not overtaken, acquires it. */
  lemma LoopAcquires(s: State, t: Thread)
    requires t in s.at && s.at[t] == Waiting && s.count > 0
    ensures Legal(s, [Move(t, Check), Move(t, Retry)])
    ensures After(s, [Move(t, Check), Move(t, Retry)]) == State(s.count - 1, s.at[t := Holding], s.slow)
  {
    TwoMoves(s, Move(t, Check), Move(t, Retry));
    assert s.at[t := Trying][t := Holding] == s.at[t := Holding];
  }

  /** Where it finds none, parking and waking up change nothing. */
  lemma LoopParks(s: State, t: Thread)
    requires t in s.at && s.at[t] == Waiting && s.count <= 0
    ensures Legal(s, [Move(t, Check), Move(t, Wake)]) && After(s, [Move(t, Check), Move(t, Wake)]) == s
  {
    TwoMoves(s, Move(t, Check), Move(t, Wake));
    assert s.at[t := Parked][t := Waiting] == s.at;
  }

  /** Inside a down that waits. */
  predicate Blocked(p: Place) { p in {Again, Waiting, Trying, Restoring, Parked} }

  /** A thread holds the semaphore in some state of the run. */
  ghost predicate EverHolds(s: State, run: seq<Move>, t: Thread)
    requires Legal(s, run)
    decreases |run|
  {
    (t in s.at && s.at[t] == Holding) || (run != [] && EverHolds(Do(s, run[0]), run[1..], t))
  }

  /** A down that had to wait returns only with the semaphore: whatever the other threads do, its thread
      stays inside until it holds. */
  lemma {:induction false} BlockedUntilHeld(s: State, run: seq<Move>, t: Thread)
    requires Legal(s, run) && t in s.at && Blocked(s.at[t]) && !EverHolds(s, run, t)
    ensures t in After(s, run).at && Blocked(After(s, run).at[t])
    decreases |run|
  {
    if run != [] {
      BlockedUntilHeld(Do(s, run[0]), run[1..], t);
    }
  }

  /** Where a permit is left, every kind of down gets it, and giving it back restores the state. */
  lemma UncontendedRestores(s: State, t: Thread, a: Action)
    requires s.count > 0 && t in s.at && s.at[t] == Idle && a in {Down, DownInterruptible, DownTrylock}
    ensures Do(s, Move(t, a)).at[t] == Holding && Do(s, Move(t, a)).count == s.count - 1
    ensures Legal(s, [Move(t, a), Move(t, Up)]) && After(s, [Move(t, a), Move(t, Up)]) == s
  {
    TwoMoves(s, Move(t, a), Move(t, Up));
    assert s.at[t := Holding][t := Idle] == s.at;
  }

  /** So one contended `down_interruptible` takes two permits away from a semaphore for ever. */
  lemma InterruptibleTakesTwo(value: int, s: State, t: Thread)
    requires Accounts(value, s) && s.count <= 0 && t in s.at && s.at[t] == Idle
    ensures Legal(s, [Move(t, DownInterruptible), Move(t, Down)])
    ensures Acquirable(After(s, [Move(t, DownInterruptible), Move(t, Down)])) <==> s.slow + 2 < value
  {
    ContendedCosts(s, t);
    var run := [Move(t, DownInterruptible), Move(t, Down)];
    RunKeepsAccounts(value, s, run);
    AcquirableIfAccounts(value, After(s, run), t);
  }
}
