/** The mutex and condition barrier as interleaved critical sections (pb_wait of litmus/libdir/_utils.c). */
module CondBarrier {
  import opened Counting

  /** A waiting thread remembers the turn it saw, and whether it was signalled since it last slept. */
  datatype Status = Outside | Waiting(turn: bool, signalled: bool)

  /** A thread and the number of waits it has returned from. */
  datatype Thread = Thread(status: Status, exits: nat)

  /** The fields of pb_t, and how many times the turn was flipped. */
  datatype State = State(count: int, turn: bool, nprocs: nat, threads: seq<Thread>, flips: nat)

  function Entered(t: Thread): nat {
    if t.status.Outside? then t.exits else t.exits + 1
  }

  // ---------------------------------------------------------------- steps

  function Init(n: nat): State {
    State(n, false, n, seq(n, _ => Thread(Outside, 0)), 0)
  }

  /** pc_broadcast */
  function Signal(t: Thread): Thread {
    if t.status.Waiting? then t.(status := t.status.(signalled := true)) else t
  }

  function Broadcast(threads: seq<Thread>): (r: seq<Thread>)
    ensures |r| == |threads| && forall i :: 0 <= i < |r| ==> r[i] == Signal(threads[i])
  {
    seq(|threads|, i requires 0 <= i < |threads| => Signal(threads[i]))
  }

  /** pb_wait from taking the lock to sleeping or returning. */
  function Enter(s: State, i: nat): State
    requires i < |s.threads|
  {
    var t := s.turn;
    if s.count - 1 == 0 then
      State(s.nprocs, !t, s.nprocs, Broadcast(s.threads)[i := Thread(Outside, s.threads[i].exits + 1)], s.flips + 1)
    else
      s.(count := s.count - 1, threads := s.threads[i := s.threads[i].(status := Waiting(t, false))])
  }

  /** A sleeping thread gets the lock back, for a signal or spuriously, and looks at the turn. */
  function Wake(s: State, i: nat): State
    requires i < |s.threads| && s.threads[i].status.Waiting?
  {
    var t := s.threads[i];
    if s.turn == t.status.turn then s.(threads := s.threads[i := t.(status := t.status.(signalled := false))])
    else s.(threads := s.threads[i := Thread(Outside, t.exits + 1)])
  }

  function Step(s: State, i: nat): State
    requires i < |s.threads|
  {
    if s.threads[i].status.Outside? then Enter(s, i) else Wake(s, i)
  }

  ghost predicate IsRun(n: nat, schedule: seq<nat>, run: seq<State>) {
    && |run| == |schedule| + 1 && run[0] == Init(n)
    && forall k :: 0 <= k < |schedule| ==> schedule[k] < |run[k].threads| && run[k + 1] == Step(run[k], schedule[k])
  }

  // ---------------------------------------------------------------- the invariant

  predicate InRound(flips: nat, t: Thread) {
    t.status.Waiting? && t.exits == flips
  }

  function Waits(flips: nat): Thread -> bool {
    t => InRound(flips, t)
  }

  predicate Odd(n: nat) {
    n % 2 == 1
  }

  ghost predicate ThreadOk(flips: nat, t: Thread) {
    match t.status
    case Outside => t.exits == flips
    case Waiting(turn, signalled) => t.exits <= flips <= t.exits + 1 && turn == Odd(t.exits) && (t.exits < flips ==> signalled)
  }

  ghost predicate Inv(s: State) {
    && |s.threads| == s.nprocs && s.nprocs > 0 && s.turn == Odd(s.flips)
    && (forall i :: 0 <= i < |s.threads| ==> ThreadOk(s.flips, s.threads[i]))
    && s.count == s.nprocs - Count(s.threads, Waits(s.flips)) && s.count > 0
  }

  lemma InitInv(n: nat)
    requires n > 0
    ensures Inv(Init(n))
  {
    CountBounds(Init(n).threads, Waits(0));
  }

  /** When the last thread enters, all others wait for it. */
  lemma OthersWait(s: State, i: nat)
    requires Inv(s) && i < |s.threads| && s.threads[i].status.Outside? && s.count == 1
    ensures forall j :: 0 <= j < |s.threads| && j != i ==> InRound(s.flips, s.threads[j])
  {
    CountAllBut(s.threads, i, Waits(s.flips));
    assert forall j :: 0 <= j < |s.threads| && j != i ==> Waits(s.flips)(s.threads[j]);
  }

  lemma EnterKeeps(s: State, i: nat)
    requires Inv(s) && i < |s.threads| && s.threads[i].status.Outside?
    ensures Inv(Enter(s, i))
  {
    if s.count - 1 == 0 {
      LastKeeps(s, i);
    } else {
      CountUpdate(s.threads, i, Enter(s, i).threads[i], Waits(s.flips));
    }
  }

  lemma LastKeeps(s: State, i: nat)
    requires Inv(s) && i < |s.threads| && s.threads[i].status.Outside? && s.count == 1
    ensures Inv(Enter(s, i))
  {
    var s' := Enter(s, i);
    OthersWait(s, i);
    CountBounds(s'.threads, Waits(s'.flips));
    assert forall j :: 0 <= j < |s'.threads| ==> !Waits(s'.flips)(s'.threads[j]);
  }

  lemma WakeKeeps(s: State, i: nat)
    requires Inv(s) && i < |s.threads| && s.threads[i].status.Waiting?
    ensures Inv(Step(s, i))
  {
    var s' := Step(s, i);
    CountUpdate(s.threads, i, s'.threads[i], Waits(s.flips));
  }

  lemma StepKeeps(s: State, i: nat)
    requires Inv(s) && i < |s.threads|
    ensures Inv(Step(s, i))
  {
    if s.threads[i].status.Outside? {
      EnterKeeps(s, i);
    } else {
      WakeKeeps(s, i);
    }
  }

  lemma {:induction false} RunInv(n: nat, schedule: seq<nat>, run: seq<State>, k: nat)
    requires n > 0 && IsRun(n, schedule, run) && k < |run|
    ensures Inv(run[k])
  {
    if k == 0 {
      InitInv(n);
    } else {
      RunInv(n, schedule, run, k - 1);
      assert run[k - 1 + 1] == Step(run[k - 1], schedule[k - 1]);
      StepKeeps(run[k - 1], schedule[k - 1]);
    }
  }

  // ---------------------------------------------------------------- what holds in every interleaving

  /** In every interleaving, with spurious wake-ups, no thread leaves its k-th wait before all have entered it. */
  lemma BarrierHolds(n: nat, schedule: seq<nat>, run: seq<State>, k: nat, i: nat, j: nat)
    requires n > 0 && IsRun(n, schedule, run) && k < |run|
    requires i < |run[k].threads| && j < |run[k].threads|
    ensures run[k].threads[i].exits <= run[k].threads[j].exits + if run[k].threads[j].status.Outside? then 0 else 1
  {
    RunInv(n, schedule, run, k);
    assert ThreadOk(run[k].flips, run[k].threads[i]) && ThreadOk(run[k].flips, run[k].threads[j]);
  }

  /** No wake-up is lost: a thread whose turn is over has been signalled, and its next look makes it leave. */
  lemma NoLostWakeup(n: nat, schedule: seq<nat>, run: seq<State>, k: nat, i: nat)
    requires n > 0 && IsRun(n, schedule, run) && k < |run| && i < |run[k].threads|
    requires run[k].threads[i].status.Waiting? && run[k].threads[i].exits < run[k].flips
    ensures run[k].threads[i].status.signalled && Step(run[k], i).threads[i].status.Outside?
  {
    RunInv(n, schedule, run, k);
    assert ThreadOk(run[k].flips, run[k].threads[i]);
  }

  /** Not all threads sleep for the current round. */
  lemma NeverStuck(n: nat, schedule: seq<nat>, run: seq<State>, k: nat)
    requires n > 0 && IsRun(n, schedule, run) && k < |run|
    ensures exists i :: 0 <= i < |run[k].threads| && !InRound(run[k].flips, run[k].threads[i])
  {
    RunInv(n, schedule, run, k);
    NotAllAsleep(run[k]);
  }

  // ---------------------------------------------------------------- progress

  /** A thread asleep for the current round stays asleep when it looks; any other step starts or ends a wait. */
  lemma LookSpec(n: nat, schedule: seq<nat>, run: seq<State>, k: nat, i: nat)
    requires n > 0 && IsRun(n, schedule, run) && k < |run| && i < |run[k].threads|
    ensures var s, t, u := run[k], run[k].threads[i], Step(run[k], i).threads[i];
            && (InRound(s.flips, t) ==> u == Thread(Waiting(t.status.turn, false), t.exits))
            && (t.status.Waiting? && !InRound(s.flips, t) ==> u == Thread(Outside, t.exits + 1))
            && (t.status.Outside? ==> u == if s.count == 1 then Thread(Outside, t.exits + 1) else
                                           Thread(Waiting(s.turn, false), t.exits))
  {
    RunInv(n, schedule, run, k);
    assert ThreadOk(run[k].flips, run[k].threads[i]);
  }

  /** A continuation of a run: which thread takes each step, and the states from s on. */
  ghost predicate IsPath(s: State, schedule: seq<nat>, path: seq<State>) {
    && |path| == |schedule| + 1 && path[0] == s
    && forall k :: 0 <= k < |schedule| ==> schedule[k] < |path[k].threads| && path[k + 1] == Step(path[k], schedule[k])
  }

  /** How many critical sections a thread has to run until it has returned from `goal` waits, if it waits at most twice. */
  function StepsOf(goal: nat, t: Thread): nat {
    if t.exits >= goal then 0
    else if t.exits + 1 < goal then 3
    else if t.status.Outside? then 2
    else 1
  }

  function StepsLeft(goal: nat): Thread -> nat {
    t => StepsOf(goal, t)
  }

  function Work(s: State, goal: nat): nat {
    Total(s.threads, StepsLeft(goal))
  }

  /** The goal is the end of the current or last round, and threads that have reached it stay outside. */
  ghost predicate Aiming(s: State, goal: nat) {
    && Inv(s) && s.flips <= goal <= s.flips + 1
    && forall i :: 0 <= i < |s.threads| && s.threads[i].exits >= goal ==> s.threads[i].status.Outside?
  }

  lemma NotAllAsleep(s: State)
    requires Inv(s)
    ensures exists i :: 0 <= i < |s.threads| && !InRound(s.flips, s.threads[i])
  {
    CountBounds(s.threads, Waits(s.flips));
    assert exists i :: 0 <= i < |s.threads| && !Waits(s.flips)(s.threads[i]);
  }

  /** Some thread that has not reached the goal does not sleep for the current round. */
  lemma SomeoneMoves(s: State, goal: nat) returns (i: nat)
    requires Aiming(s, goal) && exists j :: 0 <= j < |s.threads| && s.threads[j].exits < goal
    ensures i < |s.threads| && s.threads[i].exits < goal && !InRound(s.flips, s.threads[i])
  {
    if s.flips == goal {
      i :| 0 <= i < |s.threads| && s.threads[i].exits < goal;
    } else {
      NotAllAsleep(s);
      i :| 0 <= i < |s.threads| && !InRound(s.flips, s.threads[i]);
      assert ThreadOk(s.flips, s.threads[i]);
    }
  }

  lemma MoveAims(s: State, goal: nat, i: nat)
    requires Aiming(s, goal) && i < |s.threads| && s.threads[i].exits < goal && !InRound(s.flips, s.threads[i])
    ensures Aiming(Step(s, i), goal) && |Step(s, i).threads| == |s.threads|
  {
    StepKeeps(s, i);
    assert ThreadOk(s.flips, s.threads[i]);
  }

  /** Its step brings it nearer to the goal. */
  lemma MoveDrops(s: State, goal: nat, i: nat)
    requires Aiming(s, goal) && i < |s.threads| && s.threads[i].exits < goal && !InRound(s.flips, s.threads[i])
    ensures Work(Step(s, i), goal) < Work(s, goal)
  {
    var s' := Step(s, i);
    var w := StepsLeft(goal);
    assert ThreadOk(s.flips, s.threads[i]);
    TotalUpdate(s.threads, i, s'.threads[i], w);
    TotalSame(s.threads[i := s'.threads[i]], s'.threads, w);
  }

  /** A schedule under which all threads reach the goal; the work left drops at each step. */
  lemma {:induction false} Finish(s: State, goal: nat) returns (schedule: seq<nat>, path: seq<State>)
    requires Aiming(s, goal)
    ensures IsPath(s, schedule, path) && Aiming(path[|schedule|], goal) && |path[|schedule|].threads| == |s.threads|
    ensures forall i :: 0 <= i < |s.threads| ==> path[|schedule|].threads[i].exits >= goal
    ensures forall k :: 0 <= k < |schedule| ==> Work(path[k + 1], goal) < Work(path[k], goal)
    decreases Work(s, goal)
  {
    hide Step; hide Inv; hide Aiming;
    if j :| 0 <= j < |s.threads| && s.threads[j].exits < goal {
      var i := SomeoneMoves(s, goal);
      MoveDrops(s, goal, i);
      MoveAims(s, goal, i);
      var rest, tail := Finish(Step(s, i), goal);
      schedule, path := [i] + rest, [s] + tail;
    } else {
      schedule, path := [], [s];
    }
  }

  lemma AllReturned(s: State, goal: nat)
    requires Aiming(s, goal) && forall i :: 0 <= i < |s.threads| ==> s.threads[i].exits >= goal
    ensures forall i :: 0 <= i < |s.threads| ==> s.threads[i] == Thread(Outside, goal)
  {
    forall i | 0 <= i < |s.threads|
      ensures s.threads[i] == Thread(Outside, goal)
    {
      assert ThreadOk(s.flips, s.threads[i]);
    }
  }

  lemma AimNext(s: State)
    requires Inv(s)
    ensures Aiming(s, s.flips + 1) && forall i :: 0 <= i < |s.threads| ==> Entered(s.threads[i]) <= s.flips + 1
  {
    assert forall i :: 0 <= i < |s.threads| ==> ThreadOk(s.flips, s.threads[i]);
  }

  /** From every reachable state some schedule lets every thread return from its current wait. */
  lemma EveryWaitEnds(n: nat, schedule: seq<nat>, run: seq<State>, k: nat) returns (more: seq<nat>, path: seq<State>)
    requires n > 0 && IsRun(n, schedule, run) && k < |run|
    ensures IsPath(run[k], more, path) && |path[|more|].threads| == |run[k].threads|
    ensures forall i :: 0 <= i < |run[k].threads| ==>
              && path[|more|].threads[i] == Thread(Outside, run[k].flips + 1)
              && Entered(run[k].threads[i]) <= run[k].flips + 1
    ensures forall j :: 0 <= j < |more| ==> Work(path[j + 1], run[k].flips + 1) < Work(path[j], run[k].flips + 1)
  {
    hide Inv; hide Aiming; hide Work;
    RunInv(n, schedule, run, k);
    AimNext(run[k]);
    more, path := Finish(run[k], run[k].flips + 1);
    AllReturned(path[|more|], run[k].flips + 1);
  }
}
