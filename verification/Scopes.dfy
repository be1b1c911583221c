/** Statements that drive the storage, and the frames they stand for (asllib/Interpreter.ml). */
module Scopes {
  import opened Prelude
  import opened Storage

  /** Expressions are functions of the values of the visible names. */
  datatype Stmt =
    | Skip
    | Decl(x: Name, e: Values -> int)
    | Set(x: Name, e: Values -> int)
    | Seq(s1: Stmt, s2: Stmt)
    | Cond(c: Values -> bool, s1: Stmt, s2: Stmt)
    | While(c: Values -> bool, body: Stmt)
    | Repeat(body: Stmt, c: Values -> bool)
    | For(id: Name, start: Values -> int, up: bool, end: Values -> int, body: Stmt)
    | Return(e: Values -> int)
    | Throw(e: Values -> int)

  datatype Exit = Returning(v: int) | Throwing(v: int)

  /**
   * How a statement ends within a number of loop iterations. Stuck stands for an escaping Not_found or a failed
   * assertion of the storage, Undefined for the error UndefinedIdentifier, Running for a loop that goes on.
   */
  datatype Outcome<+T> = Stuck | Undefined | Running | Leaving(exit: Exit, last: T) | Continuing(last: T)

  // ---------------------------------------------------------------- on the storage

  /** An environment and the next pointer of alloc. */
  datatype Point = Point(env: Env, next: nat)

  predicate Ended(v: int, up: bool, end: int) {
    if up then end < v else end > v
  }

  function Left(v: int, up: bool, end: int): nat {
    if Ended(v, up, end) then 0 else if up then end - v + 1 else v - end + 1
  }

  function Step(v: int, up: bool): int {
    if up then v + 1 else v - 1
  }

  function EvalStmt(s: Stmt, p: Point, fuel: nat): Outcome<Point>
    decreases fuel, s, 0, 0
  {
    var values := ViewAll(p.env);
    match s
    case Skip => Continuing(p)
    case Decl(x, e) =>
      var (env, next) := DeclareLocal(x, e(values), p.env, p.next);
      Continuing(Point(env, next))
    case Set(x, e) =>
      (match AssignAny(x, e(values), p.env)
       case Some(env) => Continuing(p.(env := env))
       case None => Undefined)
    case Seq(s1, s2) =>
      var r := EvalStmt(s1, p, fuel);
      if r.Continuing? then EvalStmt(s2, r.last, fuel) else r
    case Cond(c, s1, s2) => if c(values) then EvalBlock(s1, p, fuel) else EvalBlock(s2, p, fuel)
    case While(c, body) => EvalLoop(true, c, body, p, fuel)
    case Repeat(body, c) =>
      var r := EvalBlock(body, p, fuel);
      if r.Continuing? then EvalLoop(false, c, body, r.last, fuel) else r
    case For(id, start, up, end, body) =>
      var v, w := start(values), end(values);
      var (env, next) := DeclareLocal(id, v, p.env, p.next);
      var r := EvalFor(id, v, up, w, body, Point(env, next), fuel);
      if r.Continuing? then Continuing(r.last.(env := RemoveLocal(id, r.last.env))) else r
    case Return(e) => Leaving(Returning(e(values)), p)
    case Throw(e) => Leaving(Throwing(e(values)), p)
  }

  /** A statement that leaves skips pop_scope. */
  function EvalBlock(s: Stmt, p: Point, fuel: nat): Outcome<Point>
    decreases fuel, s, 1, 0
  {
    var r := EvalStmt(s, p.(env := PushScope(p.env)), fuel);
    if !r.Continuing? then r
    else
      match PopScope(p.env, r.last.env)
      case None => Stuck
      case Some(env) => Continuing(r.last.(env := env))
  }

  function EvalLoop(isWhile: bool, c: Values -> bool, body: Stmt, p: Point, fuel: nat): Outcome<Point>
    decreases fuel, body, 2, 0
  {
    if c(ViewAll(p.env)) != isWhile then Continuing(p)
    else if fuel == 0 then Running
    else
      var r := EvalBlock(body, p, fuel - 1);
      if r.Continuing? then EvalLoop(isWhile, c, body, r.last, fuel - 1) else r
  }

  function EvalFor(id: Name, v: int, up: bool, end: int, body: Stmt, p: Point, fuel: nat): Outcome<Point>
    decreases fuel, body, 2, Left(v, up, end)
  {
    if Ended(v, up, end) then Continuing(p)
    else
      var r := EvalBlock(body, p, fuel);
      if !r.Continuing? then r
      else
        match AssignLocal(id, Step(v, up), r.last.env)
        case None => Stuck
        case Some(env) => EvalFor(id, Step(v, up), up, end, body, r.last.(env := env), fuel)
  }

  // ---------------------------------------------------------------- names

  /** Every declared name is locally unbound where it is declared; it may hide a global one. */
  predicate Fresh(s: Stmt, bound: set<Name>) {
    match s
    case Decl(x, _) => x !in bound
    case Seq(s1, s2) => Fresh(s1, bound) && Fresh(s2, bound + Declared(s1))
    case Cond(_, s1, s2) => Fresh(s1, bound) && Fresh(s2, bound)
    case While(_, body) => Fresh(body, bound)
    case Repeat(body, _) => Fresh(body, bound)
    case For(id, _, _, _, body) => id !in bound && Fresh(body, bound + {id})
    case _ => true
  }

  /** The names that a statement adds to its scope. */
  function Declared(s: Stmt): set<Name> {
    match s
    case Decl(x, _) => {x}
    case Seq(s1, s2) => Declared(s1) + Declared(s2)
    case _ => {}
  }

  // ---------------------------------------------------------------- on one map of local values

  datatype Vals = Vals(globals: Values, locals: Values)

  function All(m: Vals): Values {
    m.globals + m.locals
  }

  /** The meaning when no local name hides another: a block forgets all local names but the outer ones. */
  function Mean(s: Stmt, m: Vals, fuel: nat): Outcome<Vals>
    decreases fuel, s, 0, 0
  {
    match s
    case Skip => Continuing(m)
    case Decl(x, e) => Continuing(m.(locals := m.locals[x := e(All(m))]))
    case Set(x, e) => MeanSet(x, e(All(m)), m)
    case Seq(s1, s2) =>
      var r := Mean(s1, m, fuel);
      if r.Continuing? then Mean(s2, r.last, fuel) else r
    case Cond(c, s1, s2) => if c(All(m)) then MeanBlock(s1, m, fuel) else MeanBlock(s2, m, fuel)
    case While(c, body) => MeanLoop(true, c, body, m, fuel)
    case Repeat(body, c) =>
      var r := MeanBlock(body, m, fuel);
      if r.Continuing? then MeanLoop(false, c, body, r.last, fuel) else r
    case For(id, start, up, end, body) =>
      var r := MeanFor(id, start(All(m)), up, end(All(m)), body, m.(locals := m.locals[id := start(All(m))]), fuel);
      if r.Continuing? then Continuing(r.last.(locals := r.last.locals - {id})) else r
    case Return(e) => Leaving(Returning(e(All(m))), m)
    case Throw(e) => Leaving(Throwing(e(All(m))), m)
  }

  function MeanSet(x: Name, v: int, m: Vals): Outcome<Vals> {
    if x in m.locals then Continuing(m.(locals := m.locals[x := v]))
    else if x in m.globals then Continuing(m.(globals := m.globals[x := v]))
    else Undefined
  }

  function MeanBlock(s: Stmt, m: Vals, fuel: nat): Outcome<Vals>
    decreases fuel, s, 1, 0
  {
    var r := Mean(s, m, fuel);
    if r.Continuing? then Continuing(r.last.(locals := Restrict(r.last.locals, m.locals.Keys))) else r
  }

  function MeanLoop(isWhile: bool, c: Values -> bool, body: Stmt, m: Vals, fuel: nat): Outcome<Vals>
    decreases fuel, body, 2, 0
  {
    if c(All(m)) != isWhile then Continuing(m)
    else if fuel == 0 then Running
    else
      var r := MeanBlock(body, m, fuel - 1);
      if r.Continuing? then MeanLoop(isWhile, c, body, r.last, fuel - 1) else r
  }

  function MeanFor(id: Name, v: int, up: bool, end: int, body: Stmt, m: Vals, fuel: nat): Outcome<Vals>
    decreases fuel, body, 2, Left(v, up, end)
  {
    if Ended(v, up, end) then Continuing(m)
    else
      var r := MeanBlock(body, m, fuel);
      if r.Continuing? then
        MeanFor(id, Step(v, up), up, end, body, r.last.(locals := r.last.locals[id := Step(v, up)]), fuel)
      else r
  }

  // ---------------------------------------------------------------- the storage refines the map

  ghost predicate Sound(p: Point, base: set<Name>) {
    Good(p.env, p.next, base) && Consistent(p.env.globals, p.next)
  }

  function ValsOf(p: Point): Vals {
    Vals(View(p.env.globals), View(p.env.storage))
  }

  /** The global storage keeps its names and pointers, and ends with these values. */
  ghost predicate GlobalsKept(p: Point, q: Point, globals: Values) {
    && p.next <= q.next && Consistent(q.env.globals, q.next)
    && View(q.env.globals) == globals && q.env.globals.env == p.env.globals.env
  }

  /** What a run from p that continues at q keeps, and the values it must have. */
  ghost predicate Refines(p: Point, base: set<Name>, declared: set<Name>, m: Vals, q: Point) {
    && GlobalsKept(p, q, m.globals) && Good(q.env, q.next, base)
    && View(q.env.storage) == m.locals && Keeps(p.env.storage, q.env.storage)
    && q.env.storage.env.Keys == p.env.storage.env.Keys + declared
  }

  /** The run ends as it must; it is never stuck. */
  ghost predicate Matches(p: Point, base: set<Name>, declared: set<Name>, m: Outcome<Vals>, r: Outcome<Point>) {
    match m
    case Stuck => false
    case Undefined => r.Undefined?
    case Running => r.Running?
    case Leaving(exit, last) => r.Leaving? && r.exit == exit && GlobalsKept(p, r.last, last.globals)
    case Continuing(last) => r.Continuing? && Refines(p, base, declared, last, r.last)
  }

  lemma SoundValues(p: Point, base: set<Name>)
    requires Sound(p, base)
    ensures ViewAll(p.env) == All(ValsOf(p)) && View(p.env.storage).Keys == p.env.storage.env.Keys
    ensures Refines(p, base, {}, ValsOf(p), p)
  {
    ViewSpec(p.env.storage, p.next);
  }

  lemma MatchesHere(p: Point, base: set<Name>)
    requires Sound(p, base)
    ensures Matches(p, base, {}, Continuing(ValsOf(p)), Continuing(p))
  {
    SoundValues(p, base);
  }

  lemma MatchesBoth(p: Point, base: set<Name>, declared: set<Name>, m: Outcome<Vals>, r: Outcome<Point>)
    requires Matches(p, base, declared, m, r)
    ensures m.Continuing? <==> r.Continuing?
    ensures r.Continuing? ==> Refines(p, base, declared, m.last, r.last)
  {}

  lemma RefinesSound(p: Point, base: set<Name>, declared: set<Name>, m: Vals, q: Point)
    requires Refines(p, base, declared, m, q)
    ensures Sound(q, base) && ValsOf(q) == m && q.env.storage.env.Keys == p.env.storage.env.Keys + declared
  {}

  lemma {:induction false} EvalStmtSpec(s: Stmt, p: Point, base: set<Name>, fuel: nat)
    requires Sound(p, base) && Fresh(s, p.env.storage.env.Keys)
    ensures Matches(p, base, Declared(s), Mean(s, ValsOf(p), fuel), EvalStmt(s, p, fuel))
    decreases fuel, s, 0, 0
  {
    hide Refines; hide Sound; hide ViewAll; hide All; hide ValsOf; hide AssignAny; hide MeanSet; hide GlobalsKept;
    SoundValues(p, base);
    var m := ValsOf(p);
    match s
    case Skip =>
    case Decl(x, e) => DeclSpec(x, e(All(m)), p, base);
    case Set(x, e) => SetSpec(x, e(All(m)), p, base);
    case Seq(s1, s2) =>
      EvalStmtSpec(s1, p, base, fuel);
      var r := EvalStmt(s1, p, fuel);
      if r.Continuing? {
        RefinesSound(p, base, Declared(s1), Mean(s1, m, fuel).last, r.last);
        EvalStmtSpec(s2, r.last, base, fuel);
        Onwards(p, r.last, base, Declared(s1), Declared(s2), ValsOf(r.last), Mean(s, m, fuel), EvalStmt(s2, r.last, fuel));
      }
    case Cond(c, s1, s2) =>
      if c(All(m)) {
        EvalBlockSpec(s1, p, base, fuel);
      } else {
        EvalBlockSpec(s2, p, base, fuel);
      }
    case While(c, body) => EvalLoopSpec(true, c, body, p, base, fuel);
    case Repeat(body, c) =>
      EvalBlockSpec(body, p, base, fuel);
      var r := EvalBlock(body, p, fuel);
      if r.Continuing? {
        RefinesSound(p, base, {}, MeanBlock(body, m, fuel).last, r.last);
        assert r.last.env.storage.env.Keys == p.env.storage.env.Keys;
        EvalLoopSpec(false, c, body, r.last, base, fuel);
        Onwards(p, r.last, base, {}, {}, ValsOf(r.last), Mean(s, m, fuel), EvalStmt(s, p, fuel));
      }
    case For(id, start, up, end, body) => EvalForStmt(s, p, base, fuel);
    case Return(e) => LeaveSpec(p, base);
    case Throw(e) => LeaveSpec(p, base);
  }

  lemma LeaveSpec(p: Point, base: set<Name>)
    requires Sound(p, base)
    ensures GlobalsKept(p, p, ValsOf(p).globals)
  {}

  lemma DeclSpec(x: Name, v: int, p: Point, base: set<Name>)
    requires Sound(p, base) && x !in p.env.storage.env
    ensures var (env, next) := DeclareLocal(x, v, p.env, p.next);
            var m := ValsOf(p);
            Refines(p, base, {x}, m.(locals := m.locals[x := v]), Point(env, next))
  {
    hide View; hide Good; hide Keeps;
    DeclareSpec(x, v, p.env, p.next, base);
  }

  lemma SetSpec(x: Name, v: int, p: Point, base: set<Name>)
    requires Sound(p, base)
    ensures Matches(p, base, {}, MeanSet(x, v, ValsOf(p)),
              match AssignAny(x, v, p.env) case Some(env) => Continuing(p.(env := env)) case None => Undefined)
  {
    hide View; hide Consistent;
    ViewSpec(p.env.storage, p.next);
    ViewSpec(p.env.globals, p.next);
    if x in p.env.storage.env {
      AssignSpec(x, v, p.env, p.next, base);
    } else {
      AssignGlobalSpec(x, v, p.env, p.next);
    }
  }

  /** A run that continues at mid, and then goes on from there. */
  lemma Onwards(p: Point, mid: Point, base: set<Name>, d1: set<Name>, d2: set<Name>, n: Vals, m: Outcome<Vals>, r: Outcome<Point>)
    requires Refines(p, base, d1, n, mid) && Matches(mid, base, d2, m, r)
    ensures Matches(p, base, d1 + d2, m, r)
    ensures d1 == d2 == {} ==> Matches(p, base, {}, m, r)
  {
    hide View; hide Consistent; hide Scope;
    assert d1 == d2 == {} ==> d1 + d2 == {};
    if m.Continuing? {
      KeysOnwards(p.env.storage.env.Keys, mid.env.storage.env.Keys, r.last.env.storage.env.Keys, d1, d2);
    }
  }

  lemma KeysOnwards(a: set<Name>, b: set<Name>, c: set<Name>, d1: set<Name>, d2: set<Name>)
    requires b == a + d1 && c == b + d2
    ensures c == a + (d1 + d2)
  {}

  /** A for statement: its index lives from before the first iteration to after the last one. */
  lemma EvalForStmt(s: Stmt, p: Point, base: set<Name>, fuel: nat)
    requires s.For? && Sound(p, base) && Fresh(s, p.env.storage.env.Keys)
    ensures Matches(p, base, {}, Mean(s, ValsOf(p), fuel), EvalStmt(s, p, fuel))
    decreases fuel, s.body, 3, 0
  {
    hide Refines; hide Sound; hide ViewAll; hide All; hide ValsOf; hide GlobalsKept; hide Matches;
    SoundValues(p, base);
    var m := ValsOf(p);
    var v, w := s.start(All(m)), s.end(All(m));
    DeclSpec(s.id, v, p, base);
    var (env, next) := DeclareLocal(s.id, v, p.env, p.next);
    var q := Point(env, next);
    RefinesSound(p, base, {s.id}, m.(locals := m.locals[s.id := v]), q);
    EvalForSpec(s.id, v, s.up, w, s.body, q, base, fuel);
    ForEnd(s.id, p, q, base, MeanFor(s.id, v, s.up, w, s.body, ValsOf(q), fuel), EvalFor(s.id, v, s.up, w, s.body, q, fuel));
  }

  lemma ForEnd(id: Name, p: Point, q: Point, base: set<Name>, m: Outcome<Vals>, r: Outcome<Point>)
    requires Sound(p, base) && id !in p.env.storage.env
    requires exists n :: Refines(p, base, {id}, n, q)
    requires Matches(q, base, {}, m, r)
    ensures Matches(p, base, {},
              if m.Continuing? then Continuing(m.last.(locals := m.last.locals - {id})) else m,
              if r.Continuing? then Continuing(r.last.(env := RemoveLocal(id, r.last.env))) else r)
  {
    hide View; hide Consistent;
    var n :| Refines(p, base, {id}, n, q);
    if m.Continuing? {
      RemoveSpec(id, r.last.env, r.last.next, base);
    }
  }

  lemma {:induction false} EvalBlockSpec(s: Stmt, p: Point, base: set<Name>, fuel: nat)
    requires Sound(p, base) && Fresh(s, p.env.storage.env.Keys)
    ensures Matches(p, base, {}, MeanBlock(s, ValsOf(p), fuel), EvalBlock(s, p, fuel))
    decreases fuel, s, 1, 0
  {
    hide Good; hide View; hide Refines;
    var inner := p.(env := PushScope(p.env));
    ScopeOpened(p, base);
    EvalStmtSpec(s, inner, p.env.storage.env.Keys, fuel);
    var r := EvalStmt(s, inner, fuel);
    if r.Continuing? {
      ScopeClosed(p, base, Declared(s), Mean(s, ValsOf(p), fuel).last, r.last);
    }
  }

  lemma ScopeOpened(p: Point, base: set<Name>)
    requires Sound(p, base)
    ensures var inner := p.(env := PushScope(p.env));
            Sound(inner, p.env.storage.env.Keys) && ValsOf(inner) == ValsOf(p)
    ensures View(p.env.storage).Keys == p.env.storage.env.Keys
  {
    ViewSpec(p.env.storage, p.next);
  }

  lemma ScopeClosed(p: Point, base: set<Name>, declared: set<Name>, m: Vals, q: Point)
    requires Sound(p, base) && Refines(p.(env := PushScope(p.env)), p.env.storage.env.Keys, declared, m, q)
    ensures PopScope(p.env, q.env).Some?
    ensures Refines(p, base, {}, m.(locals := Restrict(m.locals, p.env.storage.env.Keys)),
              q.(env := PopScope(p.env, q.env).value))
  {
    hide View; hide Restrict; hide Consistent;
    PopScopeSpec(p.env, q.env, p.next, q.next, base);
  }

  lemma {:induction false} EvalLoopSpec(isWhile: bool, c: Values -> bool, body: Stmt, p: Point, base: set<Name>, fuel: nat)
    requires Sound(p, base) && Fresh(body, p.env.storage.env.Keys)
    ensures Matches(p, base, {}, MeanLoop(isWhile, c, body, ValsOf(p), fuel), EvalLoop(isWhile, c, body, p, fuel))
    decreases fuel, body, 2, 0
  {
    hide Refines; hide Sound; hide ViewAll; hide All; hide ValsOf; hide GlobalsKept;
    SoundValues(p, base);
    if c(All(ValsOf(p))) == isWhile && fuel > 0 {
      EvalBlockSpec(body, p, base, fuel - 1);
      var r := EvalBlock(body, p, fuel - 1);
      if r.Continuing? {
        RefinesSound(p, base, {}, MeanBlock(body, ValsOf(p), fuel - 1).last, r.last);
        assert r.last.env.storage.env.Keys == p.env.storage.env.Keys;
        EvalLoopSpec(isWhile, c, body, r.last, base, fuel - 1);
        Onwards(p, r.last, base, {}, {}, ValsOf(r.last), MeanLoop(isWhile, c, body, ValsOf(p), fuel),
          EvalLoop(isWhile, c, body, p, fuel));
      }
    }
  }

  lemma {:induction false} EvalForSpec(id: Name, v: int, up: bool, end: int, body: Stmt, p: Point, base: set<Name>, fuel: nat)
    requires Sound(p, base) && Fresh(body, p.env.storage.env.Keys) && id in p.env.storage.env
    ensures Matches(p, base, {}, MeanFor(id, v, up, end, body, ValsOf(p), fuel), EvalFor(id, v, up, end, body, p, fuel))
    decreases fuel, body, 2, Left(v, up, end)
  {
    hide Refines; hide Sound; hide ValsOf; hide GlobalsKept; hide AssignLocal; hide Matches;
    SoundValues(p, base);
    if Ended(v, up, end) {
      MatchesHere(p, base);
    } else {
      EvalBlockSpec(body, p, base, fuel);
      var r := EvalBlock(body, p, fuel);
      MatchesBoth(p, base, {}, MeanBlock(body, ValsOf(p), fuel), r);
      if r.Continuing? {
        var n := MeanBlock(body, ValsOf(p), fuel).last;
        RefinesSound(p, base, {}, n, r.last);
        assert r.last.env.storage.env.Keys == p.env.storage.env.Keys;
        var w := Step(v, up);
        IndexStep(id, w, p, base, n, r.last);
        var q := r.last.(env := AssignLocal(id, w, r.last.env).value);
        EvalForSpec(id, w, up, end, body, q, base, fuel);
        Onwards(p, q, base, {}, {}, n.(locals := n.locals[id := w]), MeanFor(id, v, up, end, body, ValsOf(p), fuel),
          EvalFor(id, v, up, end, body, p, fuel));
      }
    }
  }

  lemma IndexStep(id: Name, w: int, p: Point, base: set<Name>, n: Vals, q: Point)
    requires Refines(p, base, {}, n, q) && id in q.env.storage.env
    ensures AssignLocal(id, w, q.env).Some?
    ensures var q' := q.(env := AssignLocal(id, w, q.env).value);
            var n' := n.(locals := n.locals[id := w]);
            && Refines(p, base, {}, n', q') && Sound(q', base) && ValsOf(q') == n'
            && q'.env.storage.env.Keys == q.env.storage.env.Keys
  {
    hide View; hide Consistent;
    AssignSpec(id, w, q.env, q.next, base);
  }

  // ---------------------------------------------------------------- frames

  /** A stack of local scopes, the innermost first, over the global names. */
  datatype Frames = Bottom(globals: Values) | Push(top: Values, rest: Frames)

  function Globals(fs: Frames): Values {
    if fs.Bottom? then fs.globals else Globals(fs.rest)
  }

  function Locals(fs: Frames): Values {
    if fs.Bottom? then map[] else Locals(fs.rest) + fs.top
  }

  /** The visible values: an inner name hides an outer one, and any local name a global one. */
  function Visible(fs: Frames): Values {
    if fs.Bottom? then fs.globals else Visible(fs.rest) + fs.top
  }

  function Depth(fs: Frames): (d: nat)
    ensures d > 0 <==> fs.Push?
  {
    if fs.Bottom? then 0 else 1 + Depth(fs.rest)
  }

  /** Assigns the innermost binding of x, if any. */
  function SetFrame(x: Name, v: int, fs: Frames): (r: Frames)
    ensures Depth(r) == Depth(fs)
  {
    if fs.Bottom? then if x in fs.globals then fs.(globals := fs.globals[x := v]) else fs
    else if x in fs.top then fs.(top := fs.top[x := v])
    else fs.(rest := SetFrame(x, v, fs.rest))
  }

  ghost predicate SameDepth(fs: Frames, r: Outcome<Frames>) {
    r.Continuing? ==> r.last.Push? && Depth(r.last) == Depth(fs)
  }

  function RunStmt(s: Stmt, fs: Frames, fuel: nat): (r: Outcome<Frames>)
    requires fs.Push?
    ensures SameDepth(fs, r)
    decreases fuel, s, 0, 0
  {
    var values := Visible(fs);
    match s
    case Skip => Continuing(fs)
    case Decl(x, e) => Continuing(fs.(top := fs.top[x := e(values)]))
    case Set(x, e) => if x in values then Continuing(SetFrame(x, e(values), fs)) else Undefined
    case Seq(s1, s2) =>
      var r := RunStmt(s1, fs, fuel);
      if r.Continuing? then RunStmt(s2, r.last, fuel) else r
    case Cond(c, s1, s2) => if c(values) then RunBlock(s1, fs, fuel) else RunBlock(s2, fs, fuel)
    case While(c, body) => RunLoop(true, c, body, fs, fuel)
    case Repeat(body, c) =>
      var r := RunBlock(body, fs, fuel);
      if r.Continuing? then RunLoop(false, c, body, r.last, fuel) else r
    case For(id, start, up, end, body) =>
      Drop(RunFor(id, start(values), up, end(values), body, Push(map[id := start(values)], fs), fuel))
    case Return(e) => Leaving(Returning(e(values)), fs)
    case Throw(e) => Leaving(Throwing(e(values)), fs)
  }

  /** Leaves the innermost scope. */
  function Drop(r: Outcome<Frames>): Outcome<Frames>
    requires r.Continuing? ==> r.last.Push?
  {
    if r.Continuing? then Continuing(r.last.rest) else r
  }

  function RunBlock(s: Stmt, fs: Frames, fuel: nat): (r: Outcome<Frames>)
    requires fs.Push?
    ensures SameDepth(fs, r)
    decreases fuel, s, 1, 0
  {
    Drop(RunStmt(s, Push(map[], fs), fuel))
  }

  function RunLoop(isWhile: bool, c: Values -> bool, body: Stmt, fs: Frames, fuel: nat): (r: Outcome<Frames>)
    requires fs.Push?
    ensures SameDepth(fs, r)
    decreases fuel, body, 2, 0
  {
    if c(Visible(fs)) != isWhile then Continuing(fs)
    else if fuel == 0 then Running
    else
      var r := RunBlock(body, fs, fuel - 1);
      if r.Continuing? then RunLoop(isWhile, c, body, r.last, fuel - 1) else r
  }

  function RunFor(id: Name, v: int, up: bool, end: int, body: Stmt, fs: Frames, fuel: nat): (r: Outcome<Frames>)
    requires fs.Push?
    ensures SameDepth(fs, r)
    decreases fuel, body, 2, Left(v, up, end)
  {
    if Ended(v, up, end) then Continuing(fs)
    else
      var r := RunBlock(body, fs, fuel);
      if r.Continuing? then RunFor(id, Step(v, up), up, end, body, SetFrame(id, Step(v, up), r.last), fuel) else r
  }

  // ---------------------------------------------------------------- the map refines the frames

  function Flat(fs: Frames): Vals {
    Vals(Globals(fs), Locals(fs))
  }

  lemma {:induction false} VisibleFlat(fs: Frames)
    ensures Visible(fs) == All(Flat(fs))
  {
    if fs.Push? {
      VisibleFlat(fs.rest);
      assert Visible(fs) == (Globals(fs) + Locals(fs.rest)) + fs.top;
    }
  }

  function Names(fs: Frames): seq<set<Name>> {
    if fs.Bottom? then [] else [fs.top.Keys] + Names(fs.rest)
  }

  /** No name is bound in two local frames. */
  ghost predicate Separate(fs: Frames) {
    fs.Bottom? || (fs.top.Keys !! Locals(fs.rest).Keys && Separate(fs.rest))
  }

  /** Whether names are bound, or bound twice, depends on the names of the frames only. */
  lemma {:induction false} SameNames(fs: Frames, fs': Frames)
    requires Names(fs) == Names(fs')
    ensures Locals(fs).Keys == Locals(fs').Keys && (Separate(fs) <==> Separate(fs'))
  {
    if fs.Push? {
      assert Names(fs) != [];
      assert Names(fs)[1..] == Names(fs.rest) && Names(fs')[1..] == Names(fs'.rest);
      assert Names(fs)[0] == fs.top.Keys && Names(fs')[0] == fs'.top.Keys;
      SameNames(fs.rest, fs'.rest);
    } else {
      assert fs'.Push? ==> |Names(fs')| > 0;
    }
  }

  lemma MergeSet(m: Values, top: Values, x: Name, v: int)
    ensures x in top ==> m + top[x := v] == (m + top)[x := v] && top[x := v].Keys == top.Keys
    ensures x !in top ==> m[x := v] + top == (m + top)[x := v]
  {}

  lemma {:induction false} SetFrameSpec(x: Name, v: int, fs: Frames)
    ensures Names(SetFrame(x, v, fs)) == Names(fs)
    ensures MeanSet(x, v, Flat(fs)) == if x in Visible(fs) then Continuing(Flat(SetFrame(x, v, fs))) else Undefined
  {
    if fs.Push? {
      MergeSet(Locals(fs.rest), fs.top, x, v);
      if x !in fs.top {
        SetFrameSpec(x, v, fs.rest);
      }
    }
  }

  lemma {:induction false} DeclaredFresh(s: Stmt, bound: set<Name>)
    requires Fresh(s, bound)
    ensures Declared(s) !! bound
  {
    if s.Seq? {
      DeclaredFresh(s.s1, bound);
      DeclaredFresh(s.s2, bound + Declared(s.s1));
    }
  }

  /** Frames that come from fs have the values they must have, and the names of fs and the declared ones. */
  ghost predicate Follows(fs: Frames, declared: set<Name>, m: Vals, r: Frames)
    requires fs.Push?
  {
    r.Push? && Flat(r) == m && Names(r) == [fs.top.Keys + declared] + Names(fs.rest) && Separate(r)
  }

  /** A run of frames ends as it must. */
  ghost predicate Means(fs: Frames, declared: set<Name>, m: Outcome<Vals>, r: Outcome<Frames>)
    requires fs.Push?
  {
    match m
    case Stuck => false
    case Undefined => r.Undefined?
    case Running => r.Running?
    case Leaving(exit, last) => r.Leaving? && r.exit == exit && Globals(r.last) == last.globals
    case Continuing(last) => r.Continuing? && Follows(fs, declared, last, r.last)
  }

  lemma {:induction false} RunStmtSpec(s: Stmt, fs: Frames, fuel: nat)
    requires fs.Push? && Separate(fs) && Fresh(s, Locals(fs).Keys)
    ensures Means(fs, Declared(s), Mean(s, Flat(fs), fuel), RunStmt(s, fs, fuel))
    decreases fuel, s, 0, 0
  {
    hide Follows; hide Visible; hide Separate; hide Locals; hide SetFrame; hide MeanSet; hide All;
    VisibleFlat(fs);
    Kept(fs, fs);
    var m := Flat(fs);
    match s
    case Skip =>
    case Decl(x, e) => Added(x, e(All(m)), fs);
    case Set(x, e) =>
      SetFrameSpec(x, e(All(m)), fs);
      Kept(fs, SetFrame(x, e(All(m)), fs));
    case Seq(s1, s2) =>
      RunStmtSpec(s1, fs, fuel);
      var r := RunStmt(s1, fs, fuel);
      if r.Continuing? {
        FollowsKeys(fs, Declared(s1), Mean(s1, m, fuel).last, r.last);
        RunStmtSpec(s2, r.last, fuel);
        Then(fs, r.last, Declared(s1), Declared(s2), Flat(r.last), Mean(s, m, fuel), RunStmt(s2, r.last, fuel));
      }
    case Cond(c, s1, s2) =>
      if c(All(m)) {
        RunBlockSpec(s1, fs, fuel);
      } else {
        RunBlockSpec(s2, fs, fuel);
      }
    case While(c, body) => RunLoopSpec(true, c, body, fs, fuel);
    case Repeat(body, c) =>
      RunBlockSpec(body, fs, fuel);
      var r := RunBlock(body, fs, fuel);
      if r.Continuing? {
        FollowsKeys(fs, {}, MeanBlock(body, m, fuel).last, r.last);
        assert Locals(r.last).Keys == Locals(fs).Keys;
        RunLoopSpec(false, c, body, r.last, fuel);
        Then(fs, r.last, {}, {}, Flat(r.last), Mean(s, m, fuel), RunStmt(s, fs, fuel));
      }
    case For(id, start, up, end, body) => RunForStmt(s, fs, fuel);
    case Return(e) =>
    case Throw(e) =>
  }

  lemma Kept(fs: Frames, r: Frames)
    requires fs.Push? && Separate(fs) && Names(r) == Names(fs)
    ensures Follows(fs, {}, Flat(r), r) && Locals(r).Keys == Locals(fs).Keys
  {
    SameNames(fs, r);
    assert fs.top.Keys + {} == fs.top.Keys;
  }

  lemma Added(x: Name, v: int, fs: Frames)
    requires fs.Push? && Separate(fs) && x !in Locals(fs)
    ensures var m := Flat(fs); Follows(fs, {x}, m.(locals := m.locals[x := v]), fs.(top := fs.top[x := v]))
  {
    assert fs.top[x := v].Keys == fs.top.Keys + {x};
    assert Locals(fs)[x := v] == Locals(fs.rest) + fs.top[x := v];
  }

  lemma FollowsKeys(fs: Frames, declared: set<Name>, m: Vals, r: Frames)
    requires fs.Push? && Follows(fs, declared, m, r)
    ensures r.Push? && Separate(r) && Flat(r) == m && Locals(r).Keys == Locals(fs).Keys + declared
  {
    assert Names(r)[1..] == Names(r.rest) && Names(r)[1..] == Names(fs.rest);
    assert Names(r)[0] == r.top.Keys;
    SameNames(r.rest, fs.rest);
  }

  lemma Then(fs: Frames, mid: Frames, d1: set<Name>, d2: set<Name>, n: Vals, m: Outcome<Vals>, r: Outcome<Frames>)
    requires fs.Push? && mid.Push? && Follows(fs, d1, n, mid) && Means(mid, d2, m, r)
    ensures Means(fs, d1 + d2, m, r)
    ensures d1 == d2 == {} ==> Means(fs, {}, m, r)
  {
    assert Names(mid)[1..] == Names(mid.rest) && Names(mid)[1..] == Names(fs.rest);
    assert Names(mid)[0] == mid.top.Keys;
    assert fs.top.Keys + d1 + d2 == fs.top.Keys + (d1 + d2);
    assert d1 == d2 == {} ==> d1 + d2 == {};
  }

  lemma Opened(top: Values, fs: Frames)
    requires Separate(fs) && top.Keys !! Locals(fs).Keys
    ensures Separate(Push(top, fs)) && Flat(Push(top, fs)) == Vals(Globals(fs), Locals(fs) + top)
  {}

  /** Dropping the innermost frame forgets exactly its names. */
  lemma Closed(top: Values, declared: set<Name>, fs: Frames, m: Vals, r: Frames)
    requires fs.Push? && Separate(fs) && Follows(Push(top, fs), declared, m, r)
    requires (top.Keys + declared) !! Locals(fs).Keys
    ensures r.Push? && Follows(fs, {}, m.(locals := Restrict(m.locals, Locals(fs).Keys)), r.rest)
    ensures m.locals.Keys == Locals(fs).Keys + top.Keys + declared
  {
    assert Names(r)[1..] == Names(r.rest) && Names(r)[1..] == Names(fs);
    assert Names(r)[0] == r.top.Keys;
    SameNames(r.rest, fs);
    Kept(fs, r.rest);
    assert Locals(r.rest) == Restrict(Locals(r), Locals(fs).Keys);
  }

  lemma {:induction false} RunBlockSpec(s: Stmt, fs: Frames, fuel: nat)
    requires fs.Push? && Separate(fs) && Fresh(s, Locals(fs).Keys)
    ensures Means(fs, {}, MeanBlock(s, Flat(fs), fuel), RunBlock(s, fs, fuel))
    decreases fuel, s, 1, 0
  {
    hide Follows; hide Locals; hide Separate; hide Restrict;
    var inner := Push(map[], fs);
    Opened(map[], fs);
    assert Locals(fs) + map[] == Locals(fs);
    RunStmtSpec(s, inner, fuel);
    DeclaredFresh(s, Locals(fs).Keys);
    var r := RunStmt(s, inner, fuel);
    if r.Continuing? {
      Closed(map[], Declared(s), fs, Mean(s, Flat(fs), fuel).last, r.last);
    }
  }

  /** A for statement: its index has a frame of its own. */
  lemma RunForStmt(s: Stmt, fs: Frames, fuel: nat)
    requires s.For? && fs.Push? && Separate(fs) && Fresh(s, Locals(fs).Keys)
    ensures Means(fs, {}, Mean(s, Flat(fs), fuel), RunStmt(s, fs, fuel))
    decreases fuel, s.body, 3, 0
  {
    hide Follows; hide Locals; hide Separate; hide Restrict; hide All; hide Visible;
    VisibleFlat(fs);
    var m := Flat(fs);
    var id, v, w := s.id, s.start(All(m)), s.end(All(m));
    var inner := Push(map[id := v], fs);
    Opened(map[id := v], fs);
    assert Locals(fs) + map[id := v] == Locals(fs)[id := v];
    assert Locals(inner).Keys == Locals(fs).Keys + {id};
    RunForSpec(id, v, s.up, w, s.body, inner, fuel);
    var r := RunFor(id, v, s.up, w, s.body, inner, fuel);
    if r.Continuing? {
      var n := MeanFor(id, v, s.up, w, s.body, Flat(inner), fuel).last;
      Closed(map[id := v], {}, fs, n, r.last);
      RestrictOne(n.locals, Locals(fs).Keys, id);
    }
  }

  lemma RestrictOne(m: Values, names: set<Name>, x: Name)
    requires x !in names && m.Keys == names + {x} + {}
    ensures Restrict(m, names) == m - {x}
  {}

  lemma {:induction false} RunLoopSpec(isWhile: bool, c: Values -> bool, body: Stmt, fs: Frames, fuel: nat)
    requires fs.Push? && Separate(fs) && Fresh(body, Locals(fs).Keys)
    ensures Means(fs, {}, MeanLoop(isWhile, c, body, Flat(fs), fuel), RunLoop(isWhile, c, body, fs, fuel))
    decreases fuel, body, 2, 0
  {
    hide Follows; hide Locals; hide Separate; hide All; hide Visible;
    VisibleFlat(fs);
    Kept(fs, fs);
    if c(Visible(fs)) == isWhile && fuel > 0 {
      RunBlockSpec(body, fs, fuel - 1);
      var r := RunBlock(body, fs, fuel - 1);
      if r.Continuing? {
        FollowsKeys(fs, {}, MeanBlock(body, Flat(fs), fuel - 1).last, r.last);
        assert Locals(r.last).Keys == Locals(fs).Keys;
        RunLoopSpec(isWhile, c, body, r.last, fuel - 1);
        Then(fs, r.last, {}, {}, Flat(r.last), MeanLoop(isWhile, c, body, Flat(fs), fuel), RunLoop(isWhile, c, body, fs, fuel));
      }
    }
  }

  lemma {:induction false} RunForSpec(id: Name, v: int, up: bool, end: int, body: Stmt, fs: Frames, fuel: nat)
    requires fs.Push? && Separate(fs) && Fresh(body, Locals(fs).Keys) && id in Locals(fs)
    ensures Means(fs, {}, MeanFor(id, v, up, end, body, Flat(fs), fuel), RunFor(id, v, up, end, body, fs, fuel))
    decreases fuel, body, 2, Left(v, up, end)
  {
    hide Follows; hide Locals; hide Separate; hide SetFrame;
    Kept(fs, fs);
    if !Ended(v, up, end) {
      RunBlockSpec(body, fs, fuel);
      var r := RunBlock(body, fs, fuel);
      if r.Continuing? {
        FollowsKeys(fs, {}, MeanBlock(body, Flat(fs), fuel).last, r.last);
        assert Locals(r.last).Keys == Locals(fs).Keys;
        var w := Step(v, up);
        IndexFrame(id, w, r.last);
        var q := SetFrame(id, w, r.last);
        RunForSpec(id, w, up, end, body, q, fuel);
        var m, e := MeanFor(id, v, up, end, body, Flat(fs), fuel), RunFor(id, v, up, end, body, fs, fuel);
        Then(r.last, q, {}, {}, Flat(q), m, e);
        Then(fs, r.last, {}, {}, Flat(r.last), m, e);
      }
    }
  }

  lemma IndexFrame(id: Name, w: int, fs: Frames)
    requires fs.Push? && Separate(fs) && id in Locals(fs)
    ensures var q := SetFrame(id, w, fs);
            var m := Flat(fs);
            && q.Push? && Separate(q) && Flat(q) == m.(locals := m.locals[id := w])
            && Follows(fs, {}, Flat(q), q) && Locals(q).Keys == Locals(fs).Keys
  {
    hide SetFrame; hide Separate;
    VisibleFlat(fs);
    SetFrameSpec(id, w, fs);
    var q := SetFrame(id, w, fs);
    assert q.Push?;
    Kept(fs, q);
    SameNames(fs, q);
  }

  // ---------------------------------------------------------------- the storage refines the frames

  ghost predicate SameEnd(r: Outcome<Point>, f: Outcome<Frames>, before: Point) {
    match f
    case Stuck => false
    case Undefined => r.Undefined?
    case Running => r.Running?
    case Leaving(exit, last) => r.Leaving? && r.exit == exit && GlobalsKept(before, r.last, Globals(last))
    case Continuing(last) =>
      && r.Continuing? && ViewAll(r.last.env) == Visible(last) && GlobalsKept(before, r.last, Globals(last))
      && Consistent(r.last.env.storage, r.last.next) && Keeps(before.env.storage, r.last.env.storage)
  }

  /**
   * Within any number of iterations the pointer store and the stack of frames end alike: with the same visible values,
   * the same exit, the same error, or still in a loop.
   */
  lemma StorageRefinesFrames(s: Stmt, p: Point, base: set<Name>, fs: Frames, fuel: nat)
    requires Sound(p, base) && fs.Push? && Separate(fs) && ValsOf(p) == Flat(fs)
    requires Fresh(s, p.env.storage.env.Keys)
    ensures SameEnd(EvalStmt(s, p, fuel), RunStmt(s, fs, fuel), p)
  {
    hide Mean; hide EvalStmt; hide RunStmt; hide GlobalsKept; hide Consistent; hide Keeps; hide View;
    SoundValues(p, base);
    EvalStmtSpec(s, p, base, fuel);
    RunStmtSpec(s, fs, fuel);
    var r, f := EvalStmt(s, p, fuel), RunStmt(s, fs, fuel);
    if f.Continuing? {
      VisibleFlat(f.last);
      RefinesSound(p, base, Declared(s), Mean(s, Flat(fs), fuel).last, r.last);
    }
  }

  /** A block that declares a bound name leaves that name without a cell. */
  lemma HidingBreaks()
    ensures var s := Cond(_ => true, Decl("x", _ => 5), Skip);
            var p := Point(Env(Store(map[], map[]), Store(map["x" := 0], map[0 := 1]), ["x"]), 1);
            var r := EvalStmt(s, p, 0);
            && Sound(p, {}) && r.Continuing?
            && "x" in r.last.env.storage.env && r.last.env.storage.env["x"] !in r.last.env.storage.mem
  {
    var env := Env(Store(map[], map[]), Store(map["x" := 0], map[0 := 1]), ["x"]);
    assert 0 in env.storage.env.Values by {
      assert env.storage.env["x"] == 0;
    }
    var inner := Point(PushScope(env), 1);
    var child := EvalStmt(Decl("x", _ => 5), inner, 0).last.env;
    assert child == Env(env.globals, Store(map["x" := 0], map[0 := 5]), ["x"]);
    assert RemoveCells(child.storage.mem, child.storage.env, ["x"][1..]).Some?;
    assert PopScope(env, child) == Some(Env(env.globals, Store(map["x" := 0], map[]), ["x"]));
  }

  // ---------------------------------------------------------------- for statements, by the list of their indexes

  /** a, a + 1, .., b or a, a - 1, .., b */
  function Indexes(a: int, up: bool, b: int): seq<int> {
    if up then seq(if b < a then 0 else b - a + 1, i => a + i) else seq(if a < b then 0 else a - b + 1, i => a - i)
  }

  /** Runs the block once for each index of the list, until it leaves. */
  function RunEach(id: Name, indexes: seq<int>, body: Stmt, fs: Frames, fuel: nat): (r: Outcome<Frames>)
    requires fs.Push?
    ensures SameDepth(fs, r)
  {
    if indexes == [] then Continuing(fs)
    else
      var r := RunBlock(body, SetFrame(id, indexes[0], fs), fuel);
      if r.Continuing? then RunEach(id, indexes[1..], body, r.last, fuel) else r
  }

  lemma {:induction false} SetFrameNames(x: Name, v: int, fs: Frames)
    ensures Names(SetFrame(x, v, fs)) == Names(fs)
  {
    if fs.Push? {
      if x in fs.top {
        assert fs.top[x := v].Keys == fs.top.Keys;
      } else {
        SetFrameNames(x, v, fs.rest);
      }
    }
  }

  /** Statements only add names to the innermost frame. */
  ghost predicate BelowKept(fs: Frames, r: Outcome<Frames>)
    requires fs.Push?
  {
    r.Continuing? ==> r.last.Push? && Names(r.last.rest) == Names(fs.rest) && fs.top.Keys <= r.last.top.Keys
  }

  /** All frames keep their names. */
  ghost predicate NamesKept(fs: Frames, r: Outcome<Frames>) {
    r.Continuing? ==> Names(r.last) == Names(fs)
  }

  lemma NamesParts(fs: Frames, gs: Frames)
    requires fs.Push? && gs.Push? && Names(fs) == Names(gs)
    ensures fs.top.Keys == gs.top.Keys && Names(fs.rest) == Names(gs.rest)
  {
    assert Names(fs)[0] == fs.top.Keys && Names(gs)[0] == gs.top.Keys;
    assert Names(fs)[1..] == Names(fs.rest) && Names(gs)[1..] == Names(gs.rest);
  }

  lemma NamesBelow(fs: Frames, r: Outcome<Frames>)
    requires fs.Push? && SameDepth(fs, r) && NamesKept(fs, r)
    ensures BelowKept(fs, r)
  {
    if r.Continuing? {
      NamesParts(fs, r.last);
    }
  }

  lemma {:induction false} StmtNames(s: Stmt, fs: Frames, fuel: nat)
    requires fs.Push?
    ensures BelowKept(fs, RunStmt(s, fs, fuel))
    decreases fuel, s, 0, 0
  {
    hide SetFrame; hide Visible; hide Names;
    match s
    case Set(x, e) => SetFrameNames(x, e(Visible(fs)), fs); NamesBelow(fs, RunStmt(s, fs, fuel));
    case Seq(s1, s2) =>
      StmtNames(s1, fs, fuel);
      if RunStmt(s1, fs, fuel).Continuing? {
        StmtNames(s2, RunStmt(s1, fs, fuel).last, fuel);
      }
    case Cond(c, s1, s2) =>
      BlockNames(s1, fs, fuel);
      BlockNames(s2, fs, fuel);
      NamesBelow(fs, RunStmt(s, fs, fuel));
    case While(c, body) =>
      LoopNames(true, c, body, fs, fuel);
      NamesBelow(fs, RunStmt(s, fs, fuel));
    case Repeat(body, c) =>
      BlockNames(body, fs, fuel);
      if RunBlock(body, fs, fuel).Continuing? {
        LoopNames(false, c, body, RunBlock(body, fs, fuel).last, fuel);
      }
      NamesBelow(fs, RunStmt(s, fs, fuel));
    case For(id, start, up, end, body) =>
      var inner := Push(map[id := start(Visible(fs))], fs);
      ForNames(id, start(Visible(fs)), up, end(Visible(fs)), body, inner, fuel);
      var r := RunFor(id, start(Visible(fs)), up, end(Visible(fs)), body, inner, fuel);
      if r.Continuing? {
        NamesParts(r.last, inner);
      }
      NamesBelow(fs, RunStmt(s, fs, fuel));
    case _ =>
  }

  lemma {:induction false} BlockNames(s: Stmt, fs: Frames, fuel: nat)
    requires fs.Push?
    ensures NamesKept(fs, RunBlock(s, fs, fuel))
    decreases fuel, s, 1, 0
  {
    StmtNames(s, Push(map[], fs), fuel);
  }

  lemma {:induction false} LoopNames(isWhile: bool, c: Values -> bool, body: Stmt, fs: Frames, fuel: nat)
    requires fs.Push?
    ensures NamesKept(fs, RunLoop(isWhile, c, body, fs, fuel))
    decreases fuel, body, 2, 0
  {
    if c(Visible(fs)) == isWhile && fuel > 0 {
      BlockNames(body, fs, fuel - 1);
      var r := RunBlock(body, fs, fuel - 1);
      if r.Continuing? {
        LoopNames(isWhile, c, body, r.last, fuel - 1);
      }
    }
  }

  lemma {:induction false} ForNames(id: Name, v: int, up: bool, end: int, body: Stmt, fs: Frames, fuel: nat)
    requires fs.Push?
    ensures NamesKept(fs, RunFor(id, v, up, end, body, fs, fuel))
    decreases fuel, body, 2, Left(v, up, end)
  {
    if !Ended(v, up, end) {
      BlockNames(body, fs, fuel);
      var r := RunBlock(body, fs, fuel);
      if r.Continuing? {
        SetFrameNames(id, Step(v, up), r.last);
        ForNames(id, Step(v, up), up, end, body, SetFrame(id, Step(v, up), r.last), fuel);
      }
    }
  }

  lemma IndexesStep(a: int, up: bool, b: int)
    ensures Indexes(a, up, b) == [] <==> (if up then b < a else a < b)
    ensures Indexes(a, up, b) != [] ==> Indexes(a, up, b) == [a] + Indexes(if up then a + 1 else a - 1, up, b)
  {}

  lemma {:induction false} ForIsEach(id: Name, v: int, up: bool, end: int, body: Stmt, fs: Frames, fuel: nat)
    requires fs.Push? && id in fs.top
    ensures Drop(RunFor(id, v, up, end, body, SetFrame(id, v, fs), fuel))
            == Drop(RunEach(id, Indexes(v, up, end), body, fs, fuel))
    decreases |Indexes(v, up, end)|
  {
    IndexesStep(v, up, end);
    var indexes := Indexes(v, up, end);
    if indexes != [] {
      var w := if up then v + 1 else v - 1;
      var r := RunBlock(body, SetFrame(id, v, fs), fuel);
      assert indexes[0] == v && indexes[1..] == Indexes(w, up, end);
      if r.Continuing? {
        BlockNames(body, SetFrame(id, v, fs), fuel);
        SetFrameNames(id, v, fs);
        NamesParts(fs, r.last);
        ForIsEach(id, w, up, end, body, r.last, fuel);
      }
    }
  }

  /** A for statement is its block run for each index from the first to the last value, in a frame for the index. */
  lemma ForRunsEach(id: Name, start: Values -> int, up: bool, end: Values -> int, body: Stmt, fs: Frames, fuel: nat)
    requires fs.Push?
    ensures var a, b := start(Visible(fs)), end(Visible(fs));
            RunStmt(For(id, start, up, end, body), fs, fuel)
            == Drop(RunEach(id, Indexes(a, up, b), body, Push(map[id := a], fs), fuel))
  {
    var a, b := start(Visible(fs)), end(Visible(fs));
    var inner := Push(map[id := a], fs);
    assert SetFrame(id, a, inner) == inner by {
      assert inner.top[id := a] == inner.top;
    }
    ForIsEach(id, a, up, b, body, inner, fuel);
  }

  // ---------------------------------------------------------------- a counting loop

  function Increment(x: Name): Stmt {
    Set(x, m => if x in m then m[x] + 1 else 0)
  }

  lemma {:induction false} VisibleSet(x: Name, v: int, fs: Frames)
    requires x in Visible(fs)
    ensures Visible(SetFrame(x, v, fs)) == Visible(fs)[x := v]
  {
    if fs.Push? && x !in fs.top {
      VisibleSet(x, v, fs.rest);
    }
  }

  lemma IncrementBlock(x: Name, fs: Frames, fuel: nat)
    requires fs.Push? && x in Visible(fs)
    ensures RunBlock(Increment(x), fs, fuel) == Continuing(SetFrame(x, Visible(fs)[x] + 1, fs))
  {
    var inner := Push(map[], fs);
    assert Visible(inner) == Visible(fs);
  }

  lemma {:induction false} EachAdds(id: Name, indexes: seq<int>, x: Name, fs: Frames, fuel: nat)
    requires fs.Push? && fs.top.Keys == {id} && x != id && x in Visible(fs.rest)
    ensures var r := RunEach(id, indexes, Increment(x), fs, fuel);
            && r.Continuing? && r.last.Push? && x in Visible(r.last.rest)
            && Visible(r.last.rest)[x] == Visible(fs.rest)[x] + |indexes|
    decreases |indexes|
  {
    if indexes != [] {
      var g := SetFrame(id, indexes[0], fs);
      assert g == fs.(top := fs.top[id := indexes[0]]) && g.top.Keys == {id};
      IncrementBlock(x, g, fuel);
      var h := SetFrame(x, Visible(g)[x] + 1, g);
      VisibleSet(x, Visible(g)[x] + 1, g.rest);
      assert h == g.(rest := SetFrame(x, Visible(g)[x] + 1, g.rest));
      EachAdds(id, indexes[1..], x, h, fuel);
    }
  }

  /** Counting in a for statement counts its indexes: none if the last value is before the first. */
  lemma ForCounts(id: Name, a: int, up: bool, b: int, x: Name, fs: Frames, fuel: nat)
    requires fs.Push? && x != id && x in Visible(fs)
    ensures var r := RunStmt(For(id, _ => a, up, _ => b, Increment(x)), fs, fuel);
            var n := if up then b - a + 1 else a - b + 1;
            r.Continuing? && x in Visible(r.last) && Visible(r.last)[x] == Visible(fs)[x] + if n < 0 then 0 else n
  {
    ForRunsEach(id, _ => a, up, _ => b, Increment(x), fs, fuel);
    EachAdds(id, Indexes(a, up, b), x, Push(map[id := a], fs), fuel);
  }
}
