/** The sense-reversing spin barrier as interleaved atomic steps (litmus/libdir/_riscv/barrier.c). */
module SpinBarrier {
  import opened Counting

  /** Where a thread is in barrier_wait. */
  datatype Pc =
    | Outside
    | Decrementing(local: int)  // has read the sense
    | Resetting(local: int)     // has decremented the counter to zero
    | Flipping(local: int)      // has reset the counter
    | Spinning(local: int)      // waits for the sense to change

  /** A thread and the number of waits it has returned from. */
  datatype Thread = Thread(pc: Pc, exits: nat)

  /** The shared fields c, sense and n, and how many times the sense was flipped. */
  datatype State = State(c: int, sense: int, n: nat, threads: seq<Thread>, flips: nat)

  function Entered(t: Thread): nat {
    if t.pc.Outside? then t.exits else t.exits + 1
  }

  // ---------------------------------------------------------------- steps

  function Init(n: nat): State {
    State(n, 0, n, seq(n, _ => Thread(Outside, 0)), 0)
  }

  function Goto(s: State, i: nat, pc: Pc): State
    requires i < |s.threads|
  {
    s.(threads := s.threads[i := s.threads[i].(pc := pc)])
  }

  function Exit(s: State, i: nat): State
    requires i < |s.threads|
  {
    s.(threads := s.threads[i := Thread(Outside, s.threads[i].exits + 1)])
  }

  /** The next atomic step of thread i. A spinning thread that sees no change stays where it is. */
  function Step(s: State, i: nat): State
    requires i < |s.threads|
  {
    match s.threads[i].pc
    case Outside => Goto(s, i, Decrementing(s.sense))
    case Decrementing(local) =>
      var s' := s.(c := s.c - 1);
      if s'.c == 0 then Goto(s', i, Resetting(local)) else Goto(s', i, Spinning(local))
    case Resetting(local) => Goto(s.(c := s.n), i, Flipping(local))
    case Flipping(local) => Exit(s.(sense := 1 - local, flips := s.flips + 1), i)
    case Spinning(local) => if s.sense == local then s else Exit(s, i)
  }

  /** An interleaving: which thread takes each step, and the states in between. */
  ghost predicate IsRun(n: nat, schedule: seq<nat>, run: seq<State>) {
    && |run| == |schedule| + 1 && run[0] == Init(n)
    && forall k :: 0 <= k < |schedule| ==> schedule[k] < |run[k].threads| && run[k + 1] == Step(run[k], schedule[k])
  }

  // ---------------------------------------------------------------- the invariant

  /** Waiting for the current round, having decremented the counter. */
  predicate InRound(flips: nat, t: Thread) {
    t.pc.Spinning? && t.exits == flips
  }

  function Waits(flips: nat): Thread -> bool {
    t => InRound(flips, t)
  }

  predicate Last(t: Thread) {
    t.pc.Resetting? || t.pc.Flipping?
  }

  ghost predicate ThreadOk(flips: nat, t: Thread) {
    match t.pc
    case Outside => t.exits == flips
    case Spinning(local) => t.exits <= flips <= t.exits + 1 && local == t.exits % 2
    case _ => t.exits == flips && t.pc.local == flips % 2
  }

  /** While thread i resets and flips, all others wait for it. */
  ghost predicate LastAlone(s: State, i: nat)
    requires i < |s.threads|
  {
    forall j :: 0 <= j < |s.threads| && j != i ==> InRound(s.flips, s.threads[j])
  }

  ghost predicate Inv(s: State) {
    && |s.threads| == s.n && s.n > 0 && s.sense == s.flips % 2
    && (forall i :: 0 <= i < |s.threads| ==> ThreadOk(s.flips, s.threads[i]))
    && (forall i :: 0 <= i < |s.threads| && Last(s.threads[i]) ==>
         LastAlone(s, i) && s.c == if s.threads[i].pc.Resetting? then 0 else s.n)
    && ((forall i :: 0 <= i < |s.threads| ==> !Last(s.threads[i])) ==>
         s.c == s.n - Count(s.threads, Waits(s.flips)) && s.c > 0)
  }

  /** The barrier property: no thread has left a wait that some thread has not entered. */
  ghost predicate Safe(s: State) {
    forall i, j :: 0 <= i < |s.threads| && 0 <= j < |s.threads| ==>
      s.threads[i].exits <= s.threads[j].exits + if s.threads[j].pc.Outside? then 0 else 1
  }

  predicate Blocked(s: State, i: nat)
    requires i < |s.threads|
  {
    s.threads[i].pc.Spinning? && s.sense == s.threads[i].pc.local
  }

  // ---------------------------------------------------------------- every step keeps the invariant

  lemma InitInv(n: nat)
    requires n > 0
    ensures Inv(Init(n))
  {
    CountBounds(Init(n).threads, Waits(0));
  }

  lemma ReadKeeps(s: State, i: nat)
    requires Inv(s) && i < |s.threads| && s.threads[i].pc.Outside?
    ensures Inv(Step(s, i))
  {
    CountUpdate(s.threads, i, s.threads[i].(pc := Decrementing(s.sense)), Waits(s.flips));
    NotLastBefore(s, i);
  }

  /** A thread that is not waiting shows that no thread is last. */
  lemma NotLastBefore(s: State, i: nat)
    requires Inv(s) && i < |s.threads| && !InRound(s.flips, s.threads[i]) && !Last(s.threads[i])
    ensures forall j :: 0 <= j < |s.threads| ==> !Last(s.threads[j])
  {
    forall j | 0 <= j < |s.threads|
      ensures !Last(s.threads[j])
    {
      assert Last(s.threads[j]) ==> LastAlone(s, j);
    }
  }

  lemma DecrementKeeps(s: State, i: nat)
    requires Inv(s) && i < |s.threads| && s.threads[i].pc.Decrementing?
    ensures Inv(Step(s, i))
  {
    var s' := Step(s, i);
    var local := s.threads[i].pc.local;
    NotLastBefore(s, i);
    CountUpdate(s.threads, i, s.threads[i].(pc := Spinning(local)), Waits(s.flips));
    if s'.c == 0 {
      CountAllBut(s.threads, i, Waits(s.flips));
      assert forall j :: 0 <= j < |s.threads| && j != i ==> Waits(s.flips)(s.threads[j]);
      assert LastAlone(s', i);
    } else {
      assert forall j :: 0 <= j < |s'.threads| && j != i ==> !Last(s'.threads[j]);
    }
  }

  lemma ResetKeeps(s: State, i: nat)
    requires Inv(s) && i < |s.threads| && s.threads[i].pc.Resetting?
    ensures Inv(Step(s, i))
  {
    assert LastAlone(s, i) && LastAlone(Step(s, i), i);
  }

  lemma FlipKeeps(s: State, i: nat)
    requires Inv(s) && i < |s.threads| && s.threads[i].pc.Flipping?
    ensures Inv(Step(s, i))
  {
    var s' := Step(s, i);
    assert LastAlone(s, i);
    CountBounds(s'.threads, Waits(s'.flips));
  }

  lemma SpinKeeps(s: State, i: nat)
    requires Inv(s) && i < |s.threads| && s.threads[i].pc.Spinning?
    ensures Inv(Step(s, i))
  {
    if s.sense != s.threads[i].pc.local {
      CountUpdate(s.threads, i, Thread(Outside, s.threads[i].exits + 1), Waits(s.flips));
      NotLastBefore(s, i);
    }
  }

  lemma StepKeeps(s: State, i: nat)
    requires Inv(s) && i < |s.threads|
    ensures Inv(Step(s, i))
  {
    match s.threads[i].pc
    case Outside => ReadKeeps(s, i);
    case Decrementing(_) => DecrementKeeps(s, i);
    case Resetting(_) => ResetKeeps(s, i);
    case Flipping(_) => FlipKeeps(s, i);
    case Spinning(_) => SpinKeeps(s, i);
  }

  lemma {:induction false} RunInv(n: nat, schedule: seq<nat>, run: seq<State>, k: nat)
    requires n > 0 && IsRun(n, schedule, run) && k < |run|
    ensures Inv(run[k])
  {
    if k == 0 {
      InitInv(n);
    } else {
      RunInv(n, schedule, run, k - 1);
      assert run[k - 1 + 1] == Step(run[k - 1], schedule[k - 1]);
      StepKeeps(run[k - 1], schedule[k - 1]);
    }
  }

  // ---------------------------------------------------------------- what holds in every interleaving

  /** In every interleaving no thread leaves its k-th wait before all threads have entered it. */
  lemma BarrierHolds(n: nat, schedule: seq<nat>, run: seq<State>, k: nat)
    requires n > 0 && IsRun(n, schedule, run) && k < |run|
    ensures Safe(run[k])
  {
    RunInv(n, schedule, run, k);
    var s := run[k];
    forall i, j | 0 <= i < |s.threads| && 0 <= j < |s.threads|
      ensures s.threads[i].exits <= s.threads[j].exits + if s.threads[j].pc.Outside? then 0 else 1
    {
      assert ThreadOk(s.flips, s.threads[i]) && ThreadOk(s.flips, s.threads[j]);
    }
  }

  /** The sense is flipped only when every other thread waits and still sees its own sense. */
  lemma FlipSeenByAll(n: nat, schedule: seq<nat>, run: seq<State>, k: nat, j: nat)
    requires n > 0 && IsRun(n, schedule, run) && k < |schedule|
    requires run[k + 1].sense != run[k].sense && j < |run[k].threads| && j != schedule[k]
    ensures Blocked(run[k], j) && j < |run[k + 1].threads| && !Blocked(run[k + 1], j)
  {
    RunInv(n, schedule, run, k);
    var s, i := run[k], schedule[k];
    assert run[k + 1] == Step(s, i);
    assert LastAlone(s, i);
    assert ThreadOk(s.flips, s.threads[j]);
  }

  lemma NotAllBlocked(s: State)
    requires Inv(s)
    ensures exists i :: 0 <= i < |s.threads| && !Blocked(s, i)
  {
    if forall i :: 0 <= i < |s.threads| ==> Blocked(s, i) {
      forall i | 0 <= i < |s.threads|
        ensures InRound(s.flips, s.threads[i]) && !Last(s.threads[i])
      {
        assert Blocked(s, i) && ThreadOk(s.flips, s.threads[i]);
      }
      CountBounds(s.threads, Waits(s.flips));
      assert false;
    }
  }

  /** Some thread can always make progress: its next step changes the state. */
  lemma NeverStuck(n: nat, schedule: seq<nat>, run: seq<State>, k: nat)
    requires n > 0 && IsRun(n, schedule, run) && k < |run|
    ensures exists i :: 0 <= i < |run[k].threads| && !Blocked(run[k], i) && Step(run[k], i) != run[k]
  {
    RunInv(n, schedule, run, k);
    var i := Unblocked(run[k]);
    MovesIff(n, schedule, run, k, i);
  }

  // ---------------------------------------------------------------- progress

  /** A thread that is not blocked changes the state with its next step, and a blocked one does not. */
  lemma MovesIff(n: nat, schedule: seq<nat>, run: seq<State>, k: nat, i: nat)
    requires n > 0 && IsRun(n, schedule, run) && k < |run| && i < |run[k].threads|
    ensures Step(run[k], i) != run[k] <==> !Blocked(run[k], i)
  {
    var s, t := run[k], run[k].threads[i];
    if !Blocked(s, i) {
      assert Step(s, i).threads[i] != t;
    }
  }

  /** A spinning thread returns with its next step once the sense has changed. */
  lemma ReleasedReturns(s: State, i: nat)
    requires i < |s.threads| && s.threads[i].pc.Spinning? && s.sense != s.threads[i].pc.local
    ensures Step(s, i).threads[i] == Thread(Outside, s.threads[i].exits + 1)
    ensures forall j :: 0 <= j < |s.threads| && j != i ==> Step(s, i).threads[j] == s.threads[j]
  {}

  /** A continuation of a run: which thread takes each step, and the states from s on. */
  ghost predicate IsPath(s: State, schedule: seq<nat>, path: seq<State>) {
    && |path| == |schedule| + 1 && path[0] == s
    && forall k :: 0 <= k < |schedule| ==> schedule[k] < |path[k].threads| && path[k + 1] == Step(path[k], schedule[k])
  }

  /** How many steps a thread has to take itself until it has returned from `goal` waits, if it waits at most twice. */
  function StepsOf(goal: nat, t: Thread): nat {
    if t.exits >= goal then 0
    else if t.exits + 1 < goal then 5
    else if t.pc.Outside? then 4
    else if t.pc.Decrementing? then 3
    else if t.pc.Resetting? then 2
    else 1
  }

  function StepsLeft(goal: nat): Thread -> nat {
    t => StepsOf(goal, t)
  }

  function Work(s: State, goal: nat): nat {
    Total(s.threads, StepsLeft(goal))
  }

  /** The goal is the end of the current or last round, and threads that have reached it stay outside. */
  ghost predicate Aiming(s: State, goal: nat) {
    && Inv(s) && s.flips <= goal <= s.flips + 1
    && forall i :: 0 <= i < |s.threads| && s.threads[i].exits >= goal ==> s.threads[i].pc.Outside?
  }

  /** Some thread that has not reached the goal is not blocked. */
  lemma SomeoneMoves(s: State, goal: nat) returns (i: nat)
    requires Aiming(s, goal) && exists j :: 0 <= j < |s.threads| && s.threads[j].exits < goal
    ensures i < |s.threads| && s.threads[i].exits < goal && !Blocked(s, i)
  {
    if s.flips == goal {
      i :| 0 <= i < |s.threads| && s.threads[i].exits < goal;
      assert ThreadOk(s.flips, s.threads[i]);
    } else {
      i := Unblocked(s);
      assert ThreadOk(s.flips, s.threads[i]);
    }
  }

  lemma Unblocked(s: State) returns (i: nat)
    requires Inv(s)
    ensures i < |s.threads| && !Blocked(s, i)
  {
    NotAllBlocked(s);
    i :| 0 <= i < |s.threads| && !Blocked(s, i);
  }

  /** Its step brings it nearer to the goal. */
  lemma MoveDrops(s: State, goal: nat, i: nat)
    requires Aiming(s, goal) && i < |s.threads| && s.threads[i].exits < goal && !Blocked(s, i)
    ensures Aiming(Step(s, i), goal) && Work(Step(s, i), goal) < Work(s, goal)
  {
    StepKeeps(s, i);
    TotalUpdate(s.threads, i, Step(s, i).threads[i], StepsLeft(goal));
    assert ThreadOk(s.flips, s.threads[i]);
  }

  /** A schedule under which all threads reach the goal; the work left drops at each step. */
  lemma {:induction false} Finish(s: State, goal: nat) returns (schedule: seq<nat>, path: seq<State>)
    requires Aiming(s, goal)
    ensures IsPath(s, schedule, path) && Aiming(path[|schedule|], goal) && |path[|schedule|].threads| == |s.threads|
    ensures forall i :: 0 <= i < |s.threads| ==> path[|schedule|].threads[i].exits >= goal
    ensures forall k :: 0 <= k < |schedule| ==> Work(path[k + 1], goal) < Work(path[k], goal)
    decreases Work(s, goal)
  {
    hide Step;
    if j :| 0 <= j < |s.threads| && s.threads[j].exits < goal {
      var i := SomeoneMoves(s, goal);
      MoveDrops(s, goal, i);
      StepSize(s, i);
      var rest, tail := Finish(Step(s, i), goal);
      schedule, path := [i] + rest, [s] + tail;
    } else {
      schedule, path := [], [s];
    }
  }

  lemma StepSize(s: State, i: nat)
    requires i < |s.threads|
    ensures |Step(s, i).threads| == |s.threads|
  {}

  /**
   * From every reachable state some schedule lets every thread return from its current wait: all end outside, having
   * returned from one wait for each round flipped so far and one more.
   */
  lemma EveryWaitEnds(n: nat, schedule: seq<nat>, run: seq<State>, k: nat) returns (more: seq<nat>, path: seq<State>)
    requires n > 0 && IsRun(n, schedule, run) && k < |run|
    ensures IsPath(run[k], more, path) && |path[|more|].threads| == |run[k].threads|
    ensures forall i :: 0 <= i < |run[k].threads| ==>
              && path[|more|].threads[i] == Thread(Outside, run[k].flips + 1)
              && Entered(run[k].threads[i]) <= run[k].flips + 1
    ensures forall j :: 0 <= j < |more| ==> Work(path[j + 1], run[k].flips + 1) < Work(path[j], run[k].flips + 1)
  {
    RunInv(n, schedule, run, k);
    var s := run[k];
    assert forall i :: 0 <= i < |s.threads| ==> ThreadOk(s.flips, s.threads[i]);
    more, path := Finish(s, s.flips + 1);
    var last := path[|more|];
    forall i | 0 <= i < |s.threads|
      ensures last.threads[i] == Thread(Outside, s.flips + 1) && Entered(s.threads[i]) <= s.flips + 1
    {
      assert ThreadOk(s.flips, s.threads[i]) && ThreadOk(last.flips, last.threads[i]);
    }
  }
}
