/** The or flag: threads alternate po_reinit and po_wait on one barrier (litmus/libdir/_utils.c). */
module OrFlag {
  import opened CB = CondBarrier

  /** The barrier and the flag of po_t, with the arguments and results of every thread's calls of po_wait so far. */
  datatype Flag = Flag(bar: State, val: bool, args: seq<seq<bool>>, results: seq<seq<bool>>)

  function Start(n: nat): Flag {
    Flag(Init(n), false, seq(n, _ => []), seq(n, _ => []))
  }

  function Push(ss: seq<seq<bool>>, i: nat, b: bool): seq<seq<bool>>
    requires i < |ss|
  {
    ss[i := ss[i] + [b]]
  }

  predicate Sized(f: Flag) {
    |f.args| == |f.results| == |f.bar.threads|
  }

  /** po_reinit from taking the lock to sleeping or returning: the last thread clears the flag. */
  function Reinit(f: Flag, i: nat): Flag
    requires Sized(f) && i < |f.args|
  {
    f.(bar := Enter(f.bar, i), val := if f.bar.count - 1 == 0 then false else f.val)
  }

  /** po_wait(v) from taking the lock to sleeping or returning: the last thread returns the flag at once. */
  function Wait(f: Flag, i: nat, v: bool): Flag
    requires Sized(f) && i < |f.args|
  {
    var val := f.val || v;
    Flag(Enter(f.bar, i), val, Push(f.args, i, v), if f.bar.count - 1 == 0 then Push(f.results, i, val) else f.results)
  }

  /** A sleeping thread looks at the turn; leaving po_wait it returns the flag. */
  function Resume(f: Flag, i: nat): Flag
    requires Sized(f) && i < |f.args| && f.bar.threads[i].status.Waiting?
  {
    var leaves := f.bar.turn != f.bar.threads[i].status.turn;
    f.(bar := Wake(f.bar, i),
       results := if leaves && Odd(f.bar.threads[i].exits) then Push(f.results, i, f.val) else f.results)
  }

  /** The next critical section of thread i; v is its argument if it enters po_wait. */
  function FlagStep(f: Flag, i: nat, v: bool): Flag
    requires Sized(f) && i < |f.args|
  {
    var t := f.bar.threads[i];
    if t.status.Waiting? then Resume(f, i)
    else if Odd(t.exits) then Wait(f, i, v)
    else Reinit(f, i)
  }

  ghost predicate IsFlagRun(n: nat, schedule: seq<(nat, bool)>, run: seq<Flag>) {
    && |run| == |schedule| + 1 && run[0] == Start(n)
    && forall k :: 0 <= k < |schedule| ==>
         && Sized(run[k]) && schedule[k].0 < |run[k].args|
         && run[k + 1] == FlagStep(run[k], schedule[k].0, schedule[k].1)
  }

  // ---------------------------------------------------------------- the invariant

  /** The disjunction of everybody's k-th argument. */
  ghost predicate AnyArg(args: seq<seq<bool>>, k: nat) {
    exists j :: 0 <= j < |args| && k < |args[j]| && args[j][k]
  }

  ghost predicate AllGiven(args: seq<seq<bool>>, k: nat) {
    forall j :: 0 <= j < |args| ==> k < |args[j]|
  }

  /** Calls of po_wait entered and left, from the number of barrier rounds entered and left. */
  ghost predicate Counted(f: Flag)
    requires Sized(f)
  {
    forall j :: 0 <= j < |f.args| ==>
      |f.args[j]| == Entered(f.bar.threads[j]) / 2 && |f.results[j]| == f.bar.threads[j].exits / 2
  }

  /** The flag is the disjunction of the arguments given in the current or last round of po_wait. */
  ghost predicate ValueOk(f: Flag) {
    f.bar.flips > 0 ==> f.val == AnyArg(f.args, (f.bar.flips - 1) / 2)
  }

  ghost predicate ResultsOk(f: Flag) {
    forall i, k :: 0 <= i < |f.results| && 0 <= k < |f.results[i]| ==>
      AllGiven(f.args, k) && f.results[i][k] == AnyArg(f.args, k)
  }

  ghost predicate FlagInv(f: Flag) {
    Sized(f) && Inv(f.bar) && Counted(f) && ValueOk(f) && ResultsOk(f)
  }

  lemma AnyArgPush(args: seq<seq<bool>>, i: nat, v: bool, k: nat)
    requires i < |args| && k <= |args[i]|
    ensures AnyArg(Push(args, i, v), k) <==> AnyArg(args, k) || (k == |args[i]| && v)
  {
    var args' := Push(args, i, v);
    assert args'[i] == args[i] + [v];
    if AnyArg(args, k) {
      var j :| 0 <= j < |args| && k < |args[j]| && args[j][k];
      assert args'[j][k];
    }
    if k == |args[i]| && v {
      assert args'[i][k];
    }
  }

  /** The results so far do not depend on arguments given later. */
  lemma ResultsStable(f: Flag, i: nat, v: bool)
    requires Sized(f) && i < |f.args| && ResultsOk(f)
    ensures ResultsOk(f.(args := Push(f.args, i, v)))
  {
    forall m, k | 0 <= m < |f.results| && 0 <= k < |f.results[m]|
      ensures AllGiven(Push(f.args, i, v), k) && f.results[m][k] == AnyArg(Push(f.args, i, v), k)
    {
      assert AllGiven(f.args, k) && f.results[m][k] == AnyArg(f.args, k);
      AnyArgPush(f.args, i, v, k);
    }
  }

  lemma ResultsPush(f: Flag, i: nat, b: bool)
    requires Sized(f) && i < |f.args| && ResultsOk(f)
    requires AllGiven(f.args, |f.results[i]|) && b == AnyArg(f.args, |f.results[i]|)
    ensures ResultsOk(f.(results := Push(f.results, i, b)))
  {
    hide AnyArg; hide AllGiven;
  }

  /** Once all threads have entered a round of po_wait, all its arguments are there. */
  lemma RoundGiven(f: Flag, k: nat)
    requires Sized(f) && Counted(f)
    requires forall j :: 0 <= j < |f.args| ==> Entered(f.bar.threads[j]) >= 2 * k + 2
    ensures AllGiven(f.args, k)
  {}

  lemma ReinitKeeps(f: Flag, i: nat)
    requires FlagInv(f) && i < |f.args|
    requires f.bar.threads[i].status.Outside? && !Odd(f.bar.threads[i].exits)
    ensures FlagInv(Reinit(f, i))
  {
    hide ResultsOk; hide Counted; hide Inv; hide ValueOk;
    EnterKeeps(f.bar, i);
    ReinitCounted(f, i);
    ReinitValue(f, i);
    ResultsSame(f, Reinit(f, i));
  }

  lemma ReinitValue(f: Flag, i: nat)
    requires FlagInv(f) && i < |f.args|
    requires f.bar.threads[i].status.Outside? && !Odd(f.bar.threads[i].exits)
    ensures ValueOk(Reinit(f, i))
  {
    hide ResultsOk; hide Counted; hide AnyArg;
    RoundOf(f, i);
    if f.bar.count - 1 == 0 {
      NothingGiven(f, i);
    }
  }

  lemma ReinitCounted(f: Flag, i: nat)
    requires FlagInv(f) && i < |f.args|
    requires f.bar.threads[i].status.Outside? && !Odd(f.bar.threads[i].exits)
    ensures Counted(Reinit(f, i))
  {
    hide ResultsOk; hide ValueOk; hide Inv;
  }

  /** When the last thread enters po_reinit, nobody has entered the next po_wait. */
  lemma NothingGiven(f: Flag, i: nat)
    requires FlagInv(f) && i < |f.args| && f.bar.count == 1
    requires f.bar.threads[i].status.Outside? && !Odd(f.bar.threads[i].exits)
    ensures !AnyArg(f.args, f.bar.flips / 2)
  {
    RoundOf(f, i);
    OthersWait(f.bar, i);
    forall j | 0 <= j < |f.args|
      ensures |f.args[j]| <= f.bar.flips / 2
    {
      assert j != i ==> InRound(f.bar.flips, f.bar.threads[j]);
    }
  }

  lemma ResultsSame(f: Flag, f': Flag)
    requires ResultsOk(f) && f'.args == f.args && f'.results == f.results
    ensures ResultsOk(f')
  {}

  lemma WaitKeeps(f: Flag, i: nat, v: bool)
    requires FlagInv(f) && i < |f.args|
    requires f.bar.threads[i].status.Outside? && Odd(f.bar.threads[i].exits)
    ensures FlagInv(Wait(f, i, v))
  {
    hide Inv; hide ResultsOk; hide AnyArg;
    var f' := Wait(f, i, v);
    EnterKeeps(f.bar, i);
    WaitCounted(f, i, v);
    var k := f.bar.flips / 2;
    RoundOf(f, i);
    AnyArgPush(f.args, i, v, k);
    ResultsStable(f, i, v);
    var g := f'.(results := f.results);
    ResultsSame(f.(args := f'.args), g);
    if f.bar.count - 1 == 0 {
      LastWait(f, i, v);
      ResultsPush(g, i, f'.val);
    }
  }

  lemma RoundOf(f: Flag, i: nat)
    requires FlagInv(f) && i < |f.args| && f.bar.threads[i].status.Outside?
    ensures f.bar.threads[i].exits == f.bar.flips && |f.args[i]| == |f.results[i]| == f.bar.flips / 2
  {
    assert ThreadOk(f.bar.flips, f.bar.threads[i]);
  }

  lemma LastWait(f: Flag, i: nat, v: bool)
    requires FlagInv(f) && i < |f.args| && f.bar.count == 1
    requires f.bar.threads[i].status.Outside? && Odd(f.bar.threads[i].exits)
    ensures AllGiven(Wait(f, i, v).args, f.bar.flips / 2)
  {
    hide ResultsOk; hide ValueOk;
    RoundOf(f, i);
    OthersWait(f.bar, i);
    WaitCounted(f, i, v);
    RoundGiven(Wait(f, i, v), f.bar.flips / 2);
  }

  lemma WaitCounted(f: Flag, i: nat, v: bool)
    requires FlagInv(f) && i < |f.args|
    requires f.bar.threads[i].status.Outside? && Odd(f.bar.threads[i].exits)
    ensures Counted(Wait(f, i, v))
  {
    hide ResultsOk; hide ValueOk; hide Inv;
  }

  lemma ResumeKeeps(f: Flag, i: nat)
    requires FlagInv(f) && i < |f.args| && f.bar.threads[i].status.Waiting?
    ensures FlagInv(Resume(f, i))
  {
    var f' := Resume(f, i);
    WakeKeeps(f.bar, i);
    assert ThreadOk(f.bar.flips, f.bar.threads[i]);
    ResumeCounted(f, i);
    var k := f.bar.threads[i].exits / 2;
    if f.bar.turn != f.bar.threads[i].status.turn && Odd(f.bar.threads[i].exits) {
      forall j | 0 <= j < |f.args|
        ensures Entered(f.bar.threads[j]) >= 2 * k + 2
      {
        assert ThreadOk(f.bar.flips, f.bar.threads[j]);
      }
      RoundGiven(f, k);
      ResultsPush(f, i, f.val);
      ResultsSame(f.(results := f'.results), f');
    } else {
      ResultsSame(f, f');
    }
  }

  lemma ResumeCounted(f: Flag, i: nat)
    requires FlagInv(f) && i < |f.args| && f.bar.threads[i].status.Waiting?
    ensures Counted(Resume(f, i))
  {
    hide ResultsOk; hide ValueOk; hide Inv;
  }

  lemma {:induction false} FlagRunInv(n: nat, schedule: seq<(nat, bool)>, run: seq<Flag>, k: nat)
    requires n > 0 && IsFlagRun(n, schedule, run) && k < |run|
    ensures FlagInv(run[k])
  {
    if k == 0 {
      InitInv(n);
    } else {
      FlagRunInv(n, schedule, run, k - 1);
      var f, i, v := run[k - 1], schedule[k - 1].0, schedule[k - 1].1;
      assert run[k - 1 + 1] == FlagStep(f, i, v);
      FlagStepKeeps(f, i, v);
    }
  }

  /** In every interleaving, every thread's r-th po_wait returns the disjunction of all r-th arguments. */
  lemma WaitReturnsDisjunction(n: nat, schedule: seq<(nat, bool)>, run: seq<Flag>, k: nat, i: nat, r: nat)
    requires n > 0 && IsFlagRun(n, schedule, run) && k < |run|
    requires i < |run[k].results| && r < |run[k].results[i]|
    ensures forall j :: 0 <= j < |run[k].args| ==> r < |run[k].args[j]|
    ensures run[k].results[i][r] <==> exists j :: 0 <= j < |run[k].args| && run[k].args[j][r]
  {
    FlagRunInv(n, schedule, run, k);
    assert AllGiven(run[k].args, r) && run[k].results[i][r] == AnyArg(run[k].args, r);
  }

  // ---------------------------------------------------------------- progress

  /** The flag takes the steps of its barrier. */
  lemma StepProjects(f: Flag, i: nat, v: bool)
    requires Sized(f) && i < |f.args|
    ensures FlagStep(f, i, v).bar == Step(f.bar, i)
  {}

  ghost predicate IsFlagPath(f: Flag, schedule: seq<(nat, bool)>, path: seq<Flag>) {
    && |path| == |schedule| + 1 && path[0] == f
    && forall k :: 0 <= k < |schedule| ==>
         && Sized(path[k]) && schedule[k].0 < |path[k].args|
         && path[k + 1] == FlagStep(path[k], schedule[k].0, schedule[k].1)
  }

  lemma FlagStepKeeps(f: Flag, i: nat, v: bool)
    requires FlagInv(f) && i < |f.args|
    ensures FlagInv(FlagStep(f, i, v))
  {
    if f.bar.threads[i].status.Waiting? {
      ResumeKeeps(f, i);
    } else if Odd(f.bar.threads[i].exits) {
      WaitKeeps(f, i, v);
    } else {
      ReinitKeeps(f, i);
    }
  }

  /** A schedule, with any arguments v, under which all threads return. */
  lemma {:induction false} FinishFlag(f: Flag, goal: nat, v: bool) returns (schedule: seq<(nat, bool)>, path: seq<Flag>)
    requires FlagInv(f) && Aiming(f.bar, goal)
    ensures IsFlagPath(f, schedule, path) && FlagInv(path[|schedule|]) && Aiming(path[|schedule|].bar, goal)
    ensures |path[|schedule|].bar.threads| == |f.bar.threads|
    ensures forall i :: 0 <= i < |f.bar.threads| ==> path[|schedule|].bar.threads[i].exits >= goal
    decreases Work(f.bar, goal)
  {
    hide Inv; hide Aiming; hide FlagStep; hide Step; hide Counted; hide ValueOk; hide ResultsOk;
    if j :| 0 <= j < |f.bar.threads| && f.bar.threads[j].exits < goal {
      var i := SomeoneMoves(f.bar, goal);
      MoveDrops(f.bar, goal, i);
      MoveAims(f.bar, goal, i);
      StepProjects(f, i, v);
      FlagStepKeeps(f, i, v);
      var rest, tail := FinishFlag(FlagStep(f, i, v), goal, v);
      schedule, path := [(i, v)] + rest, [f] + tail;
    } else {
      schedule, path := [], [f];
    }
  }

  /** From every reachable state some schedule lets every thread return from its current call. */
  lemma EveryCallEnds(n: nat, schedule: seq<(nat, bool)>, run: seq<Flag>, k: nat, v: bool)
    returns (more: seq<(nat, bool)>, path: seq<Flag>)
    requires n > 0 && IsFlagRun(n, schedule, run) && k < |run|
    ensures IsFlagPath(run[k], more, path) && |path[|more|].bar.threads| == |run[k].bar.threads|
    ensures forall i :: 0 <= i < |run[k].bar.threads| ==>
              && path[|more|].bar.threads[i] == Thread(Outside, run[k].bar.flips + 1)
              && Entered(run[k].bar.threads[i]) <= run[k].bar.flips + 1
  {
    hide Inv; hide Aiming;
    FlagRunInv(n, schedule, run, k);
    AimNext(run[k].bar);
    more, path := FinishFlag(run[k], run[k].bar.flips + 1, v);
    AllReturned(path[|more|].bar, run[k].bar.flips + 1);
  }
}
