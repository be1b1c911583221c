/** The pool of cached threads as interleaved critical sections (litmus/libdir/_utils.c). */
module ThreadPool {
  import opened Counting

  /** Tasks are numbered in order of submission; a task's number also names its one-place buffer. */
  type Task = nat

  /** A cached thread: created with a task, running one, on its way to the pool, or asleep in it. */
  datatype Worker = Starting(task: Task) | Running(task: Task) | Returning | Sleeping(signalled: bool)

  /** A one-place buffer: not set yet, set, or emptied by the submitter. */
  datatype Buffer = Empty | Full(val: int) | Taken(val: int)

  /** The fields of pool_t, the table of queued tasks, all cached threads and all buffers. */
  datatype Pool = Pool(nPool: int, nOut: int, nThread: int, table: seq<Task>,
                       workers: seq<Worker>, buffers: seq<Buffer>, fatal: bool)

  /** What the submitted functions compute. */
  type Results = Task -> int

  datatype Action = Put | Start(i: nat) | Finish(i: nat) | Get(i: nat) | Wake(i: nat) | Join(task: Task)

  function Init(): Pool {
    Pool(0, 0, 0, [], [], [], false)
  }

  /** pool_status: a violated sum is fatal. */
  function Status(p: Pool): Pool {
    p.(fatal := p.fatal || p.nPool + p.nOut + |p.table| != p.nThread)
  }

  function Signal(w: Worker): Worker {
    if w.Sleeping? then Sleeping(true) else w
  }

  function Broadcast(ws: seq<Worker>): (r: seq<Worker>)
    ensures |r| == |ws| && forall i :: 0 <= i < |r| ==> r[i] == Signal(ws[i])
  {
    seq(|ws|, i requires 0 <= i < |ws| => Signal(ws[i]))
  }

  /** op_create followed by pool_put. */
  function PutStep(p: Pool): Pool {
    var t := |p.buffers|;
    var p := p.(buffers := p.buffers + [Empty]);
    if p.nPool <= 0 then
      Status(p.(nOut := p.nOut + 1, nThread := p.nThread + 1)).(workers := p.workers + [Starting(t)])
    else
      Status(p).(table := p.table + [t], nPool := p.nPool - 1, workers := Broadcast(p.workers))
  }

  function Become(p: Pool, i: nat, w: Worker): Pool
    requires i < |p.workers|
  {
    p.(workers := p.workers[i := w])
  }

  /** Runs the task and sets its buffer; setting a full buffer is fatal. */
  function FinishStep(p: Pool, i: nat, result: Results): Pool
    requires i < |p.workers| && p.workers[i].Running? && p.workers[i].task < |p.buffers|
  {
    var t := p.workers[i].task;
    var p := Become(p, i, Returning);
    p.(buffers := p.buffers[t := Full(result(t))], fatal := p.fatal || p.buffers[t].Full?)
  }

  /** The end of pool_get: takes the last queued task, or sleeps. */
  function TakeOrSleep(p: Pool, i: nat): Pool
    requires i < |p.workers|
  {
    if |p.table| <= 0 then Become(p, i, Sleeping(false))
    else
      var n := |p.table| - 1;
      Become(p.(table := p.table[..n], nOut := p.nOut + 1), i, Running(p.table[n]))
  }

  function GetStep(p: Pool, i: nat): Pool
    requires i < |p.workers|
  {
    TakeOrSleep(Status(p.(nPool := p.nPool + 1, nOut := p.nOut - 1)), i)
  }

  predicate Enabled(p: Pool, a: Action) {
    match a
    case Put => true
    case Start(i) => i < |p.workers| && p.workers[i].Starting?
    case Finish(i) => i < |p.workers| && p.workers[i].Running? && p.workers[i].task < |p.buffers|
    case Get(i) => i < |p.workers| && p.workers[i].Returning?
    case Wake(i) => i < |p.workers| && p.workers[i].Sleeping?
    case Join(t) => t < |p.buffers| && p.buffers[t].Full?
  }

  function Step(p: Pool, a: Action, result: Results): Pool
    requires Enabled(p, a)
  {
    match a
    case Put => PutStep(p)
    case Start(i) => Become(p, i, Running(p.workers[i].task))
    case Finish(i) => FinishStep(p, i, result)
    case Get(i) => GetStep(p, i)
    case Wake(i) => TakeOrSleep(p, i)
    case Join(t) => p.(buffers := p.buffers[t := Taken(p.buffers[t].val)])
  }

  ghost predicate IsRun(result: Results, actions: seq<Action>, run: seq<Pool>) {
    && |run| == |actions| + 1 && run[0] == Init()
    && forall k :: 0 <= k < |actions| ==> Enabled(run[k], actions[k]) && run[k + 1] == Step(run[k], actions[k], result)
  }

  // ---------------------------------------------------------------- the invariant

  predicate Asleep(w: Worker) {
    w.Sleeping?
  }

  function Sleepers(): Worker -> bool {
    w => Asleep(w)
  }

  predicate Holds(w: Worker, t: Task) {
    (w.Starting? || w.Running?) && w.task == t
  }

  function Holders(t: Task): Worker -> bool {
    w => Holds(w, t)
  }

  function Is(t: Task): Task -> bool {
    u => u == t
  }

  /** In how many places t is queued or running. */
  function Places(p: Pool, t: Task): nat {
    Count(p.table, Is(t)) + Count(p.workers, Holders(t))
  }

  predicate Pending(p: Pool, t: Task) {
    t < |p.buffers| && p.buffers[t].Empty?
  }

  /** Sleeping threads are those available and those reserved for queued tasks; the others are out. */
  ghost predicate Balanced(p: Pool) {
    && p.nPool >= 0 && p.nThread == |p.workers|
    && Count(p.workers, Sleepers()) == p.nPool + |p.table|
    && p.nOut == |p.workers| - Count(p.workers, Sleepers())
  }

  /** While tasks are queued, every sleeper has been signalled. */
  ghost predicate Awake(p: Pool) {
    p.table != [] ==> forall i :: 0 <= i < |p.workers| && p.workers[i].Sleeping? ==> p.workers[i].signalled
  }

  ghost predicate OnePlace(p: Pool) {
    forall t: Task :: Places(p, t) == if Pending(p, t) then 1 else 0
  }

  ghost predicate ResultsRight(p: Pool, result: Results) {
    forall t :: 0 <= t < |p.buffers| && !p.buffers[t].Empty? ==> p.buffers[t].val == result(t)
  }

  ghost predicate Inv(p: Pool, result: Results) {
    !p.fatal && Balanced(p) && Awake(p) && OnePlace(p) && ResultsRight(p, result)
  }

  // ---------------------------------------------------------------- every step keeps the invariant

  lemma CountBroadcast(ws: seq<Worker>, t: Task)
    ensures Count(Broadcast(ws), Sleepers()) == Count(ws, Sleepers())
    ensures Count(Broadcast(ws), Holders(t)) == Count(ws, Holders(t))
  {
    CountSame(Broadcast(ws), ws, Sleepers(), Sleepers());
    CountSame(Broadcast(ws), ws, Holders(t), Holders(t));
  }

  lemma PutKeeps(p: Pool, result: Results)
    requires Inv(p, result)
    ensures Inv(PutStep(p), result)
  {
    hide Places; hide Count; hide OnePlace;
    PutOnePlace(p);
    CountAppend(p.workers, Starting(|p.buffers|), Sleepers());
    CountBroadcast(p.workers, |p.buffers|);
  }

  lemma PutOnePlace(p: Pool)
    requires OnePlace(p)
    ensures OnePlace(PutStep(p))
  {
    hide Places;
    forall u: Task
      ensures Places(PutStep(p), u) == Places(p, u) + if u == |p.buffers| then 1 else 0
    {
      PutPlaces(p, u);
    }
  }

  lemma PutPlaces(p: Pool, u: Task)
    ensures Places(PutStep(p), u) == Places(p, u) + if u == |p.buffers| then 1 else 0
  {
    CountAppend(p.workers, Starting(|p.buffers|), Holders(u));
    CountAppend(p.table, |p.buffers|, Is(u));
    CountBroadcast(p.workers, u);
  }

  lemma StartKeeps(p: Pool, i: nat, result: Results)
    requires Inv(p, result) && Enabled(p, Start(i))
    ensures Inv(Step(p, Start(i), result), result)
  {
    var p' := Step(p, Start(i), result);
    CountUpdate(p.workers, i, p'.workers[i], Sleepers());
    forall u: Task
      ensures Places(p', u) == Places(p, u)
    {
      CountUpdate(p.workers, i, p'.workers[i], Holders(u));
    }
  }

  /** The task of a running worker is pending and held by that worker alone. */
  lemma RunningPending(p: Pool, i: nat)
    requires OnePlace(p) && i < |p.workers| && p.workers[i].Running?
    ensures Pending(p, p.workers[i].task)
  {
    CountBounds(p.workers, Holders(p.workers[i].task));
    assert Holders(p.workers[i].task)(p.workers[i]);
  }

  lemma FinishKeeps(p: Pool, i: nat, result: Results)
    requires Inv(p, result) && Enabled(p, Finish(i))
    ensures Inv(Step(p, Finish(i), result), result)
  {
    var p' := Step(p, Finish(i), result);
    var t := p.workers[i].task;
    RunningPending(p, i);
    CountUpdate(p.workers, i, Returning, Sleepers());
    forall u: Task
      ensures Places(p', u) == Places(p, u) - if u == t then 1 else 0
    {
      CountUpdate(p.workers, i, Returning, Holders(u));
    }
  }

  /** Taking a queued task moves it from the table to the worker. */
  lemma TakePlaces(p: Pool, i: nat, u: Task)
    requires i < |p.workers| && (p.workers[i].Returning? || p.workers[i].Sleeping?)
    ensures Places(TakeOrSleep(p, i), u) == Places(p, u)
  {
    var p' := TakeOrSleep(p, i);
    CountUpdate(p.workers, i, p'.workers[i], Holders(u));
    if |p.table| > 0 {
      var n := |p.table| - 1;
      assert p.table == p.table[..n] + [p.table[n]];
      CountAppend(p.table[..n], p.table[n], Is(u));
    }
  }

  lemma TakeKeeps(p: Pool, i: nat)
    requires i < |p.workers| && (p.workers[i].Returning? || p.workers[i].Sleeping?)
    requires OnePlace(p) && Awake(p)
    ensures OnePlace(TakeOrSleep(p, i)) && Awake(TakeOrSleep(p, i))
  {
    forall u: Task
      ensures Places(TakeOrSleep(p, i), u) == Places(p, u)
    {
      TakePlaces(p, i, u);
    }
  }

  /** One sleeper more if nothing is queued, one less if the thread was asleep. */
  lemma TakeSleepers(p: Pool, i: nat)
    requires i < |p.workers|
    ensures |TakeOrSleep(p, i).workers| == |p.workers|
    ensures Count(TakeOrSleep(p, i).workers, Sleepers()) ==
            Count(p.workers, Sleepers()) - (if p.workers[i].Sleeping? then 1 else 0) + (if p.table == [] then 1 else 0)
  {
    hide Count;
    CountUpdate(p.workers, i, TakeOrSleep(p, i).workers[i], Sleepers());
  }

  function Released(p: Pool): Pool {
    Status(p.(nPool := p.nPool + 1, nOut := p.nOut - 1))
  }

  lemma ReleasedOnePlace(p: Pool)
    requires OnePlace(p)
    ensures OnePlace(Released(p))
  {
    hide Count;
    assert forall u: Task :: Places(Released(p), u) == Places(p, u) && Pending(Released(p), u) == Pending(p, u);
  }

  lemma GetKeeps(p: Pool, i: nat, result: Results)
    requires Inv(p, result) && Enabled(p, Get(i))
    ensures Inv(Step(p, Get(i), result), result)
  {
    hide Count; hide OnePlace; hide Awake;
    ReleasedOnePlace(p);
    ReleasedAwake(p);
    TakeKeeps(Released(p), i);
    TakeSleepers(Released(p), i);
  }

  lemma ReleasedAwake(p: Pool)
    requires Awake(p)
    ensures Awake(Released(p))
  {}

  lemma WakeKeeps(p: Pool, i: nat, result: Results)
    requires Inv(p, result) && Enabled(p, Wake(i))
    ensures Inv(Step(p, Wake(i), result), result)
  {
    hide Count; hide OnePlace; hide Awake;
    TakeKeeps(p, i);
    TakeSleepers(p, i);
  }

  lemma JoinKeeps(p: Pool, t: Task, result: Results)
    requires Inv(p, result) && Enabled(p, Join(t))
    ensures Inv(Step(p, Join(t), result), result)
  {
    hide Count;
    var p' := Step(p, Join(t), result);
    assert forall u: Task :: Places(p', u) == Places(p, u) && Pending(p', u) == Pending(p, u);
  }

  lemma StepKeeps(p: Pool, a: Action, result: Results)
    requires Inv(p, result) && Enabled(p, a)
    ensures Inv(Step(p, a, result), result)
  {
    match a
    case Put => PutKeeps(p, result);
    case Start(i) => StartKeeps(p, i, result);
    case Finish(i) => FinishKeeps(p, i, result);
    case Get(i) => GetKeeps(p, i, result);
    case Wake(i) => WakeKeeps(p, i, result);
    case Join(t) => JoinKeeps(p, t, result);
  }

  lemma {:induction false} RunInv(result: Results, actions: seq<Action>, run: seq<Pool>, k: nat)
    requires IsRun(result, actions, run) && k < |run|
    ensures Inv(run[k], result)
  {
    if k > 0 {
      RunInv(result, actions, run, k - 1);
      assert run[k - 1 + 1] == Step(run[k - 1], actions[k - 1], result);
      StepKeeps(run[k - 1], actions[k - 1], result);
    }
  }

  // ---------------------------------------------------------------- what holds in every interleaving

  /** The sum checked by pool_status is always right, so no check is ever fatal. */
  lemma NeverFatal(result: Results, actions: seq<Action>, run: seq<Pool>, k: nat)
    requires IsRun(result, actions, run) && k < |run|
    ensures !run[k].fatal && run[k].nPool + run[k].nOut + |run[k].table| == run[k].nThread == |run[k].workers|
    ensures Count(run[k].workers, Sleepers()) == run[k].nPool + |run[k].table|
  {
    RunInv(result, actions, run, k);
  }

  /** A submitted task is queued, or with exactly one thread, or done with its own result: always exactly one of these. */
  lemma TaskInOnePlace(result: Results, actions: seq<Action>, run: seq<Pool>, k: nat, t: Task)
    requires IsRun(result, actions, run) && k < |run| && t < |run[k].buffers|
    ensures Places(run[k], t) == if run[k].buffers[t].Empty? then 1 else 0
    ensures !run[k].buffers[t].Empty? ==> run[k].buffers[t].val == result(t)
  {
    RunInv(result, actions, run, k);
    assert Pending(run[k], t) == run[k].buffers[t].Empty?;
  }

  /** Every queued task has a sleeper of its own, already signalled, that can take it. */
  lemma QueuedTaskHasSleeper(result: Results, actions: seq<Action>, run: seq<Pool>, k: nat)
    requires IsRun(result, actions, run) && k < |run| && run[k].table != []
    ensures Count(run[k].workers, Sleepers()) >= |run[k].table|
    ensures exists i :: 0 <= i < |run[k].workers| && run[k].workers[i] == Sleeping(true)
                     && Step(run[k], Wake(i), result).workers[i].Running?
  {
    RunInv(result, actions, run, k);
    var p := run[k];
    CountBounds(p.workers, Sleepers());
    var i :| 0 <= i < |p.workers| && Sleepers()(p.workers[i]);
    assert Asleep(p.workers[i]);
    assert p.workers[i] == Sleeping(true) && Step(p, Wake(i), result).workers[i].Running?;
  }

  /** A buffer is set exactly once: it is empty when its task finishes, and never becomes empty again. */
  lemma BufferSetOnce(result: Results, actions: seq<Action>, run: seq<Pool>, k: nat, t: Task)
    requires IsRun(result, actions, run) && k < |actions| && t < |run[k].buffers|
    ensures t < |run[k + 1].buffers|
    ensures !run[k].buffers[t].Empty? ==> !run[k + 1].buffers[t].Empty?
    ensures actions[k].Finish? && run[k].workers[actions[k].i].task == t ==>
              run[k].buffers[t].Empty? && run[k + 1].buffers[t] == Full(result(t))
  {
    RunInv(result, actions, run, k);
    if actions[k].Finish? {
      RunningPending(run[k], actions[k].i);
    }
  }

  /** A thread that takes a task takes the one queued last and leaves the others; with none queued it sleeps. */
  lemma TakeSpec(p: Pool, i: nat)
    requires i < |p.workers|
    ensures var q := TakeOrSleep(p, i);
            && q.workers == p.workers[i := if p.table == [] then Sleeping(false) else Running(p.table[|p.table| - 1])]
            && (p.table == [] ==> q.table == [])
            && (p.table != [] ==> p.table == q.table + [p.table[|p.table| - 1]])
  {}

  // ---------------------------------------------------------------- how many threads there are

  /** A put with an available thread creates none and queues the task; otherwise one thread is created with it. */
  lemma PutSpec(result: Results, actions: seq<Action>, run: seq<Pool>, k: nat)
    requires IsRun(result, actions, run) && k < |actions| && actions[k].Put?
    ensures var p, q, t := run[k], run[k + 1], |run[k].buffers|;
            && q.buffers == p.buffers + [Empty]
            && (Count(p.workers, Sleepers()) > |p.table| ==> |q.workers| == |p.workers| && q.table == p.table + [t])
            && (Count(p.workers, Sleepers()) == |p.table| ==>
                 q.table == p.table && q.workers == p.workers + [Starting(t)])
  {
    RunInv(result, actions, run, k);
  }

  predicate Works(w: Worker) {
    w.Starting? || w.Running?
  }

  function Workings(): Worker -> bool {
    w => Works(w)
  }

  function Returnings(): Worker -> bool {
    (w: Worker) => w.Returning?
  }

  function Empties(): Buffer -> bool {
    (b: Buffer) => b.Empty?
  }

  /** The threads in use: one for each task not done yet, and those that have done theirs but are not back. */
  function Demand(p: Pool): nat {
    Count(p.buffers, Empties()) + Count(p.workers, Returnings())
  }

  /** The tasks not done yet are queued or with a working thread, and every thread is of one kind. */
  ghost predicate Accounted(p: Pool) {
    && Count(p.buffers, Empties()) == |p.table| + Count(p.workers, Workings())
    && |p.workers| == Count(p.workers, Workings()) + Count(p.workers, Returnings()) + Count(p.workers, Sleepers())
  }

  lemma KindsAppend(ws: seq<Worker>, w: Worker)
    ensures Count(ws + [w], Workings()) == Count(ws, Workings()) + if Works(w) then 1 else 0
    ensures Count(ws + [w], Returnings()) == Count(ws, Returnings()) + if w.Returning? then 1 else 0
    ensures Count(ws + [w], Sleepers()) == Count(ws, Sleepers()) + if w.Sleeping? then 1 else 0
  {
    CountAppend(ws, w, Workings());
    CountAppend(ws, w, Returnings());
    CountAppend(ws, w, Sleepers());
  }

  lemma KindsUpdate(ws: seq<Worker>, i: nat, w: Worker)
    requires i < |ws|
    ensures var ws' := ws[i := w];
            && Count(ws', Workings()) == Count(ws, Workings()) - (if Works(ws[i]) then 1 else 0) + (if Works(w) then 1 else 0)
            && Count(ws', Returnings()) ==
               Count(ws, Returnings()) - (if ws[i].Returning? then 1 else 0) + (if w.Returning? then 1 else 0)
            && Count(ws', Sleepers()) == Count(ws, Sleepers()) - (if ws[i].Sleeping? then 1 else 0) + (if w.Sleeping? then 1 else 0)
  {
    CountUpdate(ws, i, w, Workings());
    CountUpdate(ws, i, w, Returnings());
    CountUpdate(ws, i, w, Sleepers());
  }

  lemma KindsBroadcast(ws: seq<Worker>)
    ensures Count(Broadcast(ws), Workings()) == Count(ws, Workings())
    ensures Count(Broadcast(ws), Returnings()) == Count(ws, Returnings())
    ensures Count(Broadcast(ws), Sleepers()) == Count(ws, Sleepers())
  {
    CountSame(Broadcast(ws), ws, Workings(), Workings());
    CountSame(Broadcast(ws), ws, Returnings(), Returnings());
    CountSame(Broadcast(ws), ws, Sleepers(), Sleepers());
  }

  lemma PutAccounted(p: Pool)
    requires Accounted(p)
    ensures Accounted(PutStep(p))
  {
    hide Count;
    CountAppend(p.buffers, Empty, Empties());
    KindsAppend(p.workers, Starting(|p.buffers|));
    KindsBroadcast(p.workers);
  }

  /** A thread that takes a task or sleeps. */
  lemma TakeAccounted(p: Pool, i: nat)
    requires Accounted(p) && i < |p.workers| && (p.workers[i].Returning? || p.workers[i].Sleeping?)
    ensures Accounted(TakeOrSleep(p, i))
  {
    hide Count;
    KindsUpdate(p.workers, i, TakeOrSleep(p, i).workers[i]);
  }

  lemma FinishAccounted(p: Pool, i: nat, result: Results)
    requires Accounted(p) && Enabled(p, Finish(i)) && Pending(p, p.workers[i].task)
    ensures Accounted(FinishStep(p, i, result))
  {
    hide Count;
    KindsUpdate(p.workers, i, Returning);
    CountUpdate(p.buffers, p.workers[i].task, Full(result(p.workers[i].task)), Empties());
  }

  lemma StepAccounted(p: Pool, a: Action, result: Results)
    requires Inv(p, result) && Accounted(p) && Enabled(p, a)
    ensures Accounted(Step(p, a, result))
  {
    hide Count; hide Places; hide TakeOrSleep; hide PutStep; hide FinishStep;
    match a
    case Put => PutAccounted(p);
    case Start(i) => KindsUpdate(p.workers, i, Running(p.workers[i].task));
    case Finish(i) =>
      RunningPending(p, i);
      FinishAccounted(p, i, result);
    case Get(i) => TakeAccounted(Released(p), i);
    case Wake(i) => TakeAccounted(p, i);
    case Join(t) => CountUpdate(p.buffers, t, Taken(p.buffers[t].val), Empties());
  }

  /** The demand never exceeds the number of threads; a thread is only created when it would. */
  lemma StepDemand(p: Pool, a: Action, result: Results)
    requires Inv(p, result) && Accounted(p) && Enabled(p, a)
    ensures var q := Step(p, a, result);
            && Demand(p) <= |p.workers| <= |q.workers|
            && (|q.workers| > |p.workers| ==> Demand(q) == |q.workers|)
  {
    hide Count; hide Places;
    StepKeeps(p, a, result);
    StepAccounted(p, a, result);
  }

  lemma {:induction false} RunAccounted(result: Results, actions: seq<Action>, run: seq<Pool>, k: nat)
    requires IsRun(result, actions, run) && k < |run|
    ensures Accounted(run[k])
  {
    if k > 0 {
      RunAccounted(result, actions, run, k - 1);
      RunInv(result, actions, run, k - 1);
      assert run[k - 1 + 1] == Step(run[k - 1], actions[k - 1], result);
      StepAccounted(run[k - 1], actions[k - 1], result);
    }
  }

  /** n is the largest demand up to step k. */
  ghost predicate IsPeak(run: seq<Pool>, k: nat, n: nat)
    requires k < |run|
  {
    (exists j :: 0 <= j <= k && Demand(run[j]) == n) && forall j :: 0 <= j <= k ==> Demand(run[j]) <= n
  }

  lemma PeakStep(run: seq<Pool>, k: nat, n: nat, m: nat)
    requires 0 < k < |run| && IsPeak(run, k - 1, n)
    requires n <= m && Demand(run[k]) <= m && (m > n ==> Demand(run[k]) == m)
    ensures IsPeak(run, k, m)
  {
    hide Demand;
    var j :| 0 <= j <= k - 1 && Demand(run[j]) == n;
    assert Demand(run[j]) == m || Demand(run[k]) == m;
  }

  lemma RunDemand(result: Results, actions: seq<Action>, run: seq<Pool>, k: nat)
    requires IsRun(result, actions, run) && 0 < k < |run|
    ensures Demand(run[k]) <= |run[k].workers| && |run[k - 1].workers| <= |run[k].workers|
    ensures |run[k].workers| > |run[k - 1].workers| ==> Demand(run[k]) == |run[k].workers|
  {
    hide Demand; hide Step; hide Inv; hide Accounted;
    RunAccounted(result, actions, run, k - 1);
    RunInv(result, actions, run, k - 1);
    RunAccounted(result, actions, run, k);
    RunInv(result, actions, run, k);
    assert run[k - 1 + 1] == Step(run[k - 1], actions[k - 1], result);
    StepDemand(run[k - 1], actions[k - 1], result);
    DemandBelow(run[k], result);
  }

  /** The number of threads is the largest demand so far. */
  lemma {:induction false} ThreadsArePeak(result: Results, actions: seq<Action>, run: seq<Pool>, k: nat)
    requires IsRun(result, actions, run) && k < |run|
    ensures IsPeak(run, k, |run[k].workers|)
  {
    hide IsPeak; hide Demand; hide IsRun;
    if k == 0 {
      FirstPeak(result, actions, run);
    } else {
      ThreadsArePeak(result, actions, run, k - 1);
      RunDemand(result, actions, run, k);
      PeakStep(run, k, |run[k - 1].workers|, |run[k].workers|);
    }
  }

  lemma FirstPeak(result: Results, actions: seq<Action>, run: seq<Pool>)
    requires IsRun(result, actions, run)
    ensures IsPeak(run, 0, |run[0].workers|)
  {
    hide Demand; hide Step; hide Enabled;
    InitDemand();
  }

  lemma InitDemand()
    ensures Demand(Init()) == 0 == |Init().workers|
  {}

  lemma DemandBelow(p: Pool, result: Results)
    requires Inv(p, result) && Accounted(p)
    ensures Demand(p) <= |p.workers|
  {
    hide Count; hide Places;
  }

  /** A thread that is not back yet is not reused: two threads, though never two tasks at once. */
  lemma ReturningNotReused(result: Results)
    ensures var run := [Init(), Step(Init(), Put, result)];
            var p2 := run[1].(workers := [Running(0)]);
            var p3 := Step(p2, Finish(0), result);
            var p4 := Step(p3, Put, result);
            && p2 == Step(run[1], Start(0), result) && Enabled(p2, Finish(0))
            && p3.buffers == [Full(result(0))] && p3.workers == [Returning]
            && p4.workers == [Returning, Starting(1)] && Count(p4.buffers, Empties()) == 1
  {
    var p1 := Step(Init(), Put, result);
    assert p1.workers == [Starting(0)] && p1.buffers == [Empty];
    var p2 := p1.(workers := [Running(0)]);
    var p3 := Step(p2, Finish(0), result);
    assert p3.workers == [Returning] && p3.buffers == [Full(result(0))];
    CountAppend([Full(result(0))], Empty, Empties());
    CountAppend([], Full(result(0)), Empties());
    assert [] + [Full(result(0))] == [Full(result(0))];
  }

  // ---------------------------------------------------------------- progress

  ghost predicate IsPath(p: Pool, result: Results, actions: seq<Action>, path: seq<Pool>) {
    && |path| == |actions| + 1 && path[0] == p
    && forall k :: 0 <= k < |actions| ==> Enabled(path[k], actions[k]) && path[k + 1] == Step(path[k], actions[k], result)
  }

  function StepsOf(w: Worker): nat {
    match w
    case Starting(_) => 3
    case Running(_) => 2
    case Returning => 1
    case Sleeping(_) => 0
  }

  function StepsLeft(): Worker -> nat {
    w => StepsOf(w)
  }

  function Work(p: Pool): nat {
    4 * |p.table| + Total(p.workers, StepsLeft())
  }

  /** What a thread does next. */
  function Next(p: Pool, i: nat): Action
    requires i < |p.workers|
  {
    match p.workers[i]
    case Starting(_) => Start(i)
    case Running(_) => Finish(i)
    case Returning => Get(i)
    case Sleeping(_) => Wake(i)
  }

  /** The next step of a thread brings the end nearer, unless it sleeps and nothing is queued. */
  lemma NextDrops(p: Pool, i: nat, result: Results)
    requires Inv(p, result) && i < |p.workers| && (p.workers[i].Sleeping? ==> p.table != [])
    ensures Enabled(p, Next(p, i)) && Work(Step(p, Next(p, i), result)) < Work(p)
    ensures Step(p, Next(p, i), result).buffers == p.buffers || Next(p, i).Finish?
  {
    hide Count; hide Places; hide Total;
    if p.workers[i].Running? {
      RunningPending(p, i);
    }
    TotalUpdate(p.workers, i, Step(p, Next(p, i), result).workers[i], StepsLeft());
  }

  /** When no work is left, all threads sleep and all tasks are done. */
  lemma NoWork(p: Pool, result: Results)
    requires Inv(p, result) && Work(p) == 0
    ensures p.table == [] && (forall i :: 0 <= i < |p.workers| ==> p.workers[i].Sleeping?)
    ensures forall t :: 0 <= t < |p.buffers| ==> !p.buffers[t].Empty? && p.buffers[t].val == result(t)
  {
    TotalZero(p.workers, StepsLeft());
    assert forall i :: 0 <= i < |p.workers| ==> StepsLeft()(p.workers[i]) == 0;
    forall t: nat | t < |p.buffers|
      ensures !p.buffers[t].Empty?
    {
      CountBounds(p.workers, Holders(t));
      assert forall i :: 0 <= i < |p.workers| ==> !Holders(t)(p.workers[i]);
      assert Places(p, t) == 0;
    }
  }

  lemma SomeoneWorks(p: Pool, result: Results) returns (i: nat)
    requires Inv(p, result) && Work(p) > 0
    ensures i < |p.workers| && (p.workers[i].Sleeping? ==> p.table != [])
  {
    if p.table != [] {
      CountBounds(p.workers, Sleepers());
      i :| 0 <= i < |p.workers| && Sleepers()(p.workers[i]);
    } else {
      TotalZero(p.workers, StepsLeft());
      i :| 0 <= i < |p.workers| && StepsLeft()(p.workers[i]) != 0;
    }
  }

  lemma {:induction false} Drain(p: Pool, result: Results) returns (actions: seq<Action>, path: seq<Pool>)
    requires Inv(p, result)
    ensures IsPath(p, result, actions, path) && Inv(path[|actions|], result) && Work(path[|actions|]) == 0
    ensures |path[|actions|].buffers| == |p.buffers|
    ensures forall k :: 0 <= k < |actions| ==> Work(path[k + 1]) < Work(path[k])
    decreases Work(p)
  {
    hide Inv; hide Work; hide Step; hide Enabled; hide Next;
    if Work(p) == 0 {
      actions, path := [], [p];
    } else {
      var i := SomeoneWorks(p, result);
      NextDrops(p, i, result);
      StepKeeps(p, Next(p, i), result);
      StepBuffers(p, i, result);
      var rest, tail := Drain(Step(p, Next(p, i), result), result);
      actions, path := [Next(p, i)] + rest, [p] + tail;
    }
  }

  lemma StepBuffers(p: Pool, i: nat, result: Results)
    requires i < |p.workers| && Enabled(p, Next(p, i))
    ensures |Step(p, Next(p, i), result).buffers| == |p.buffers|
  {}

  /** From every reachable state some schedule finishes all submitted tasks and puts all threads to sleep. */
  lemma AllTasksFinish(result: Results, actions: seq<Action>, run: seq<Pool>, k: nat) returns (more: seq<Action>, path: seq<Pool>)
    requires IsRun(result, actions, run) && k < |run|
    ensures IsPath(run[k], result, more, path)
    ensures var last := path[|more|];
            && last.table == [] && |last.buffers| == |run[k].buffers|
            && (forall i :: 0 <= i < |last.workers| ==> last.workers[i].Sleeping?)
            && forall t :: 0 <= t < |last.buffers| ==> !last.buffers[t].Empty? && last.buffers[t].val == result(t)
    ensures forall j :: 0 <= j < |more| ==> Work(path[j + 1]) < Work(path[j])
  {
    hide Inv; hide Work; hide Step;
    RunInv(result, actions, run, k);
    more, path := Drain(run[k], result);
    NoWork(path[|more|], result);
  }
}
