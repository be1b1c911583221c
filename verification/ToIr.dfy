/** Compilation of expressions to constrained polynomials (to_ir and to_cond of asllib/StaticInterpreter.ml). */
module ToIr {
  import opened Prelude
  import opened Polynomial
  import opened Constraint
  import opened Expression

  type Branch = (Ctnts, Poly)
  type Ir = seq<Branch>

  // ---------------------------------------------------------------- what a disjunction means

  ghost predicate Covers(ir: Ir, v: Valuation) {
    exists b :: b in ir && Holds(b.0, v)
  }

  ghost predicate Agrees(ir: Ir, v: Valuation, n: int) {
    forall b :: b in ir && Holds(b.0, v) ==> PolyValue(b.1, v) == n
  }

  /** Some branch holds at v, and every branch that holds evaluates to n. */
  ghost predicate Represents(ir: Ir, v: Valuation, n: int) {
    Covers(ir, v) && Agrees(ir, v, n)
  }

  ghost predicate ProperCtnts(c: Ctnts, allowed: Atom -> bool) {
    c.Conjunction? ==> forall p :: p in c.signs ==> Proper(p, allowed)
  }

  ghost predicate ProperIr(ir: Ir, allowed: Atom -> bool) {
    forall b :: b in ir ==> ProperCtnts(b.0, allowed) && Proper(b.1, allowed)
  }

  ghost predicate ProperAll(cs: seq<Ctnts>, allowed: Atom -> bool) {
    forall c :: c in cs ==> ProperCtnts(c, allowed)
  }

  // ---------------------------------------------------------------- building blocks

  function Always(p: Poly): Ir {
    [(CTNTS_TRUE, p)]
  }

  /** list_cross of a branch with all branches of an expression. */
  function CrossOne(b: Branch, ir: Ir, f: (Poly, Poly) -> Poly): Ir {
    if ir == [] then [] else [(CtntsAnd(b.0, ir[0].0), f(b.1, ir[0].1))] + CrossOne(b, ir[1..], f)
  }

  function CrossNum(ir1: Ir, ir2: Ir, f: (Poly, Poly) -> Poly): Ir {
    if ir1 == [] then [] else CrossOne(ir1[0], ir2, f) + CrossNum(ir1[1..], ir2, f)
  }

  function MapNum(f: Poly -> Poly, ir: Ir): Ir {
    if ir == [] then [] else [(ir[0].0, f(ir[0].1))] + MapNum(f, ir[1..])
  }

  function ScaleBy(f: int): Poly -> Poly {
    p => PolyScale(f, p)
  }

  function RestrictOne(c: Ctnts, ir: Ir): Ir {
    if ir == [] then [] else [(CtntsAnd(c, ir[0].0), ir[0].1)] + RestrictOne(c, ir[1..])
  }

  function Restrict(cs: seq<Ctnts>, ir: Ir): Ir {
    if cs == [] then [] else RestrictOne(cs[0], ir) + Restrict(cs[1..], ir)
  }

  function IrToCond(s: Sign, ir: Ir): seq<Ctnts> {
    if ir == [] then [] else [CtntsAnd(Conjunction(map[ir[0].1 := s]), ir[0].0)] + IrToCond(s, ir[1..])
  }

  function CtntsOfBool(b: bool): Ctnts {
    if b then CTNTS_TRUE else Bottom
  }

  function PolyOfVal(l: Literal): Option<Poly> {
    if l.LInt? then Some(PolyOfZ(l.i)) else None
  }

  // ---------------------------------------------------------------- to_ir and to_cond

  /** A measure that the rewritings of MINUS and EQ_OP decrease. */
  function Size(e: Expr): nat {
    match e
    case ELiteral(_) => 0
    case EVar(_) => 0
    case EBinop(op, e1, e2) => Size(e1) + Size(e2) + (if op == EQ_OP then 5 else if op == MINUS then 3 else 1)
    case EUnop(_, e0) => Size(e0) + 1
    case ECond(c, e1, e2) => Size(c) + Size(e1) + Size(e2) + 1
  }

  ghost function Compile(env: Env, e: Expr): Option<Ir>
    requires DeclaredInOrder(env)
    decreases Rank(env, e), Size(e)
  {
    match e
    case ELiteral(_) => CompileStatic(env, e)
    case EVar(x) =>
      if x in env.constants then
        var p :- PolyOfVal(env.constants[x]);
        Some(Always(p))
      else if x !in env.types then None
      else (match env.types[x]
            case ExactInt(e') => Compile(env, e')
            case OtherInt => Some(Always(PolyOfVar(x)))
            case NotInt => None)
    case EBinop(op, e1, e2) =>
      if op == PLUS || op == MUL then
        var ir1 :- Compile(env, e1);
        var ir2 :- Compile(env, e2);
        Some(CrossNum(ir1, ir2, if op == PLUS then AddPolys else MultPolys))
      else if op == MINUS then
        assert Rank(env, EUnop(NEG, e2)) == Rank(env, e2) && Size(EUnop(NEG, e2)) == Size(e2) + 1;
        Compile(env, EBinop(PLUS, e1, EUnop(NEG, e2)))
      else if op == SHL && e2.ELiteral? && e2.lit.LInt? && e2.lit.i >= 0 then
        var ir1 :- Compile(env, e1);
        Some(MapNum(ScaleBy(Power(2, e2.lit.i)), ir1))
      else if e1.ELiteral? && e2.ELiteral? then
        var l :- BinopValues(op, e1.lit, e2.lit);
        var p :- PolyOfVal(l);
        Some(Always(p))
      else CompileStatic(env, e)
    case EUnop(uop, e0) =>
      if uop == NEG then
        var ir0 :- Compile(env, e0);
        Some(MapNum(PolyNeg, ir0))
      else CompileStatic(env, e)
    case ECond(c, e1, e2) =>
      var (cs, ncs) :- CompileCond(env, c);
      var ir1 :- Compile(env, e1);
      var ir2 :- Compile(env, e2);
      Some(Restrict(cs, ir1) + Restrict(ncs, ir2))
  }

  ghost function CompileStatic(env: Env, e: Expr): Option<Ir> {
    var l :- Eval(e, StaticLookup(env));
    var p :- PolyOfVal(l);
    Some(Always(p))
  }

  /** The cases in which a condition is true, and those in which it is false. */
  ghost function CompileCond(env: Env, e: Expr): Option<(seq<Ctnts>, seq<Ctnts>)>
    requires DeclaredInOrder(env)
    decreases Rank(env, e), Size(e)
  {
    match e
    case ELiteral(l) => if l.LInt? then None else Some(([CtntsOfBool(l.b)], [CtntsOfBool(!l.b)]))
    case EBinop(op, e1, e2) =>
      if op == BAND || op == BOR then
        var (c1, n1) :- CompileCond(env, e1);
        var (c2, n2) :- CompileCond(env, e2);
        Some(if op == BAND then (CrossAnd(c1, c2), n1 + n2) else (c1 + c2, CrossAnd(n1, n2)))
      else if op == EQ_OP then
        var ir :- Compile(env, EBinop(MINUS, e1, e2));
        Some((IrToCond(Null, ir), IrToCond(NotNull, ir)))
      else None
    case ECond(c, e1, e2) =>
      var (cc, nc) :- CompileCond(env, c);
      var (c1, n1) :- CompileCond(env, e1);
      var (c2, n2) :- CompileCond(env, e2);
      Some((CrossAnd(cc, c1) + CrossAnd(nc, c2), CrossAnd(nc + n1, cc + n2)))
    case _ => None
  }

  // ---------------------------------------------------------------- the building blocks preserve the meaning

  lemma ConcatMeaning(ir1: Ir, ir2: Ir, v: Valuation, n: int)
    ensures Covers(ir1 + ir2, v) <==> Covers(ir1, v) || Covers(ir2, v)
    ensures Agrees(ir1 + ir2, v, n) <==> Agrees(ir1, v, n) && Agrees(ir2, v, n)
  {
    assert forall b :: b in ir1 + ir2 <==> b in ir1 || b in ir2;
  }

  lemma ConsMeaning(b: Branch, ir: Ir, v: Valuation, n: int)
    ensures Covers([b] + ir, v) <==> Holds(b.0, v) || Covers(ir, v)
    ensures Agrees([b] + ir, v, n) <==> (Holds(b.0, v) ==> PolyValue(b.1, v) == n) && Agrees(ir, v, n)
  {
    ConcatMeaning([b], ir, v, n);
    assert b in [b];
  }

  lemma FirstMeaning(ir: Ir, v: Valuation, n: int)
    requires ir != []
    ensures Covers(ir, v) <==> Holds(ir[0].0, v) || Covers(ir[1..], v)
    ensures Agrees(ir, v, n) <==> (Holds(ir[0].0, v) ==> PolyValue(ir[0].1, v) == n) && Agrees(ir[1..], v, n)
  {
    ConsMeaning(ir[0], ir[1..], v, n);
    assert ir == [ir[0]] + ir[1..];
  }

  lemma {:induction false} CrossOneMeaning(b: Branch, ir: Ir, f: (Poly, Poly) -> Poly, v: Valuation, n: int, r: int)
    requires Agrees(ir, v, n)
    requires Holds(b.0, v) ==> forall q :: PolyValue(q, v) == n ==> PolyValue(f(b.1, q), v) == r
    ensures Covers(CrossOne(b, ir, f), v) <==> Holds(b.0, v) && Covers(ir, v)
    ensures Agrees(CrossOne(b, ir, f), v, r)
  {
    if ir != [] {
      FirstMeaning(ir, v, n);
      CrossOneMeaning(b, ir[1..], f, v, n, r);
      CtntsAndSpec(b.0, ir[0].0, v);
      ConsMeaning((CtntsAnd(b.0, ir[0].0), f(b.1, ir[0].1)), CrossOne(b, ir[1..], f), v, r);
    }
  }

  lemma {:induction false} CrossNumMeaning(ir1: Ir, ir2: Ir, f: (Poly, Poly) -> Poly, v: Valuation, n1: int, n2: int, r: int)
    requires Agrees(ir1, v, n1) && Agrees(ir2, v, n2)
    requires forall p, q :: PolyValue(p, v) == n1 && PolyValue(q, v) == n2 ==> PolyValue(f(p, q), v) == r
    ensures Covers(CrossNum(ir1, ir2, f), v) <==> Covers(ir1, v) && Covers(ir2, v)
    ensures Agrees(CrossNum(ir1, ir2, f), v, r)
  {
    if ir1 != [] {
      FirstMeaning(ir1, v, n1);
      CrossNumMeaning(ir1[1..], ir2, f, v, n1, n2, r);
      ConcatMeaning(CrossOne(ir1[0], ir2, f), CrossNum(ir1[1..], ir2, f), v, r);
      CrossOneMeaning(ir1[0], ir2, f, v, n2, r);
    }
  }

  lemma {:induction false} MapNumMeaning(f: Poly -> Poly, ir: Ir, v: Valuation, n: int, r: int)
    requires Agrees(ir, v, n)
    requires forall p :: PolyValue(p, v) == n ==> PolyValue(f(p), v) == r
    ensures Covers(MapNum(f, ir), v) <==> Covers(ir, v)
    ensures Agrees(MapNum(f, ir), v, r)
  {
    if ir != [] {
      FirstMeaning(ir, v, n);
      MapNumMeaning(f, ir[1..], v, n, r);
      ConsMeaning((ir[0].0, f(ir[0].1)), MapNum(f, ir[1..]), v, r);
    }
  }

  lemma {:induction false} RestrictOneMeaning(c: Ctnts, ir: Ir, v: Valuation, n: int)
    requires Agrees(ir, v, n)
    ensures Covers(RestrictOne(c, ir), v) <==> Holds(c, v) && Covers(ir, v)
    ensures Agrees(RestrictOne(c, ir), v, n)
  {
    if ir != [] {
      FirstMeaning(ir, v, n);
      RestrictOneMeaning(c, ir[1..], v, n);
      CtntsAndSpec(c, ir[0].0, v);
      ConsMeaning((CtntsAnd(c, ir[0].0), ir[0].1), RestrictOne(c, ir[1..]), v, n);
    }
  }

  lemma {:induction false} RestrictMeaning(cs: seq<Ctnts>, ir: Ir, v: Valuation, n: int)
    requires Represents(ir, v, n)
    ensures Covers(Restrict(cs, ir), v) <==> AnyHolds(cs, v)
    ensures Agrees(Restrict(cs, ir), v, n)
  {
    if cs != [] {
      RestrictMeaning(cs[1..], ir, v, n);
      RestrictOneMeaning(cs[0], ir, v, n);
      AnyHoldsFirst(cs, v);
      ConcatMeaning(RestrictOne(cs[0], ir), Restrict(cs[1..], ir), v, n);
    }
  }

  lemma SingletonMeaning(p: Poly, s: Sign, v: Valuation)
    ensures Holds(Conjunction(map[p := s]), v) <==> Satisfies(PolyValue(p, v), s)
  {
    assert p in map[p := s];
  }

  lemma {:induction false} IrToCondMeaning(s: Sign, ir: Ir, v: Valuation, n: int)
    requires Agrees(ir, v, n)
    ensures AnyHolds(IrToCond(s, ir), v) <==> Covers(ir, v) && Satisfies(n, s)
  {
    if ir != [] {
      FirstMeaning(ir, v, n);
      IrToCondMeaning(s, ir[1..], v, n);
      CtntsAndSpec(Conjunction(map[ir[0].1 := s]), ir[0].0, v);
      SingletonMeaning(ir[0].1, s, v);
      AnyHoldsFirst(IrToCond(s, ir), v);
    }
  }

  lemma AlwaysMeaning(p: Poly, v: Valuation)
    ensures Represents(Always(p), v, PolyValue(p, v))
  {
    assert (CTNTS_TRUE, p) in Always(p);
  }

  // ---------------------------------------------------------------- the compiled form represents the expression

  ghost predicate IntMeaning(env: Env, e: Expr, ir: Ir, v: Valuation) {
    exists n :: ValueIn(env, e, v) == Some(LInt(n)) && Represents(ir, v, n)
  }

  ghost predicate CondMeaning(env: Env, e: Expr, cs: seq<Ctnts>, ncs: seq<Ctnts>, v: Valuation) {
    exists b :: ValueIn(env, e, v) == Some(LBool(b)) && (AnyHolds(cs, v) <==> b) && (AnyHolds(ncs, v) <==> !b)
  }

  /** to_ir only succeeds on expressions with an integer value, and then represents that value. */
  lemma {:induction false} CompileMeaning(env: Env, e: Expr, v: Valuation)
    requires DeclaredInOrder(env) && Consistent(env, v)
    requires Compile(env, e).Some?
    ensures IntMeaning(env, e, Compile(env, e).value, v)
    decreases Rank(env, e), Size(e), 1
  {
    match e
    case EVar(x) =>
      VarMeaning(env, x, v);
    case EBinop(op, e1, e2) =>
      if op == PLUS || op == MUL {
        CompileMeaning(env, e1, v);
        CompileMeaning(env, e2, v);
        if op == PLUS {
          PlusMeaning(env, e1, e2, Compile(env, e1).value, Compile(env, e2).value, v);
        } else {
          TimesMeaning(env, e1, e2, Compile(env, e1).value, Compile(env, e2).value, v);
        }
      } else if op == MINUS {
        MinusIsPlusNeg(env, e1, e2, v);
        assert Rank(env, EUnop(NEG, e2)) == Rank(env, e2) && Size(EUnop(NEG, e2)) == Size(e2) + 1;
        CompileMeaning(env, EBinop(PLUS, e1, EUnop(NEG, e2)), v);
      } else if op == SHL && e2.ELiteral? && e2.lit.LInt? && e2.lit.i >= 0 {
        CompileMeaning(env, e1, v);
        ShiftMeaning(env, e1, e2.lit.i, Compile(env, e1).value, v);
      } else if e1.ELiteral? && e2.ELiteral? {
        assert ValueIn(env, e1, v) == Some(e1.lit) && ValueIn(env, e2, v) == Some(e2.lit);
        ConstantMeaning(env, e, BinopValues(op, e1.lit, e2.lit).value.i, v);
      } else {
        StaticMeaning(env, e, v);
      }
    case EUnop(uop, e0) =>
      if uop == NEG {
        CompileMeaning(env, e0, v);
        NegMeaning(env, e0, Compile(env, e0).value, v);
      } else {
        StaticMeaning(env, e, v);
      }
    case ECond(c, e1, e2) =>
      CompileCondMeaning(env, c, v);
      CompileMeaning(env, e1, v);
      CompileMeaning(env, e2, v);
      var (cs, ncs) := CompileCond(env, c).value;
      IfMeaning(env, e, cs, ncs, Compile(env, e1).value, Compile(env, e2).value, v);
    case ELiteral(_) =>
      StaticMeaning(env, e, v);
  }

  lemma ConstantMeaning(env: Env, e: Expr, i: int, v: Valuation)
    requires ValueIn(env, e, v) == Some(LInt(i))
    ensures IntMeaning(env, e, Always(PolyOfZ(i)), v)
  {
    ConstantValue(i, v);
    AlwaysMeaning(PolyOfZ(i), v);
  }

  lemma StaticMeaning(env: Env, e: Expr, v: Valuation)
    requires CompileStatic(env, e).Some?
    ensures IntMeaning(env, e, CompileStatic(env, e).value, v)
  {
    EvalMonotone(e, StaticLookup(env), LookupIn(env, v));
    ConstantMeaning(env, e, Eval(e, StaticLookup(env)).value.i, v);
  }

  lemma {:induction false} VarMeaning(env: Env, x: Atom, v: Valuation)
    requires DeclaredInOrder(env) && Consistent(env, v)
    requires Compile(env, EVar(x)).Some?
    ensures IntMeaning(env, EVar(x), Compile(env, EVar(x)).value, v)
    decreases Rank(env, EVar(x)), Size(EVar(x)), 0
  {
    if x in env.constants {
      ConstantMeaning(env, EVar(x), env.constants[x].i, v);
    } else if env.types[x].ExactInt? {
      CompileMeaning(env, env.types[x].value, v);
    } else {
      VarValue(x, v);
      AlwaysMeaning(PolyOfVar(x), v);
    }
  }

  lemma PlusMeaning(env: Env, e1: Expr, e2: Expr, ir1: Ir, ir2: Ir, v: Valuation)
    requires IntMeaning(env, e1, ir1, v) && IntMeaning(env, e2, ir2, v)
    ensures IntMeaning(env, EBinop(PLUS, e1, e2), CrossNum(ir1, ir2, AddPolys), v)
  {
    hide CrossNum;
    var n1 :| ValueIn(env, e1, v) == Some(LInt(n1)) && Represents(ir1, v, n1);
    var n2 :| ValueIn(env, e2, v) == Some(LInt(n2)) && Represents(ir2, v, n2);
    forall p, q | PolyValue(p, v) == n1 && PolyValue(q, v) == n2
      ensures PolyValue(AddPolys(p, q), v) == n1 + n2
    {
      AddPolysValue(p, q, v);
    }
    CrossNumMeaning(ir1, ir2, AddPolys, v, n1, n2, n1 + n2);
  }

  lemma TimesMeaning(env: Env, e1: Expr, e2: Expr, ir1: Ir, ir2: Ir, v: Valuation)
    requires IntMeaning(env, e1, ir1, v) && IntMeaning(env, e2, ir2, v)
    ensures IntMeaning(env, EBinop(MUL, e1, e2), CrossNum(ir1, ir2, MultPolys), v)
  {
    hide CrossNum;
    var n1 :| ValueIn(env, e1, v) == Some(LInt(n1)) && Represents(ir1, v, n1);
    var n2 :| ValueIn(env, e2, v) == Some(LInt(n2)) && Represents(ir2, v, n2);
    forall p, q | PolyValue(p, v) == n1 && PolyValue(q, v) == n2
      ensures PolyValue(MultPolys(p, q), v) == n1 * n2
    {
      MultPolysValue(p, q, v);
    }
    CrossNumMeaning(ir1, ir2, MultPolys, v, n1, n2, n1 * n2);
  }

  lemma MinusIsPlusNeg(env: Env, e1: Expr, e2: Expr, v: Valuation)
    ensures forall n :: ValueIn(env, EBinop(PLUS, e1, EUnop(NEG, e2)), v) == Some(LInt(n)) ==>
              ValueIn(env, EBinop(MINUS, e1, e2), v) == Some(LInt(n))
  {
    assert ValueIn(env, EUnop(NEG, e2), v).Some? ==> ValueIn(env, e2, v).Some?;
  }

  lemma NegMeaning(env: Env, e0: Expr, ir0: Ir, v: Valuation)
    requires IntMeaning(env, e0, ir0, v)
    ensures IntMeaning(env, EUnop(NEG, e0), MapNum(PolyNeg, ir0), v)
  {
    hide MapNum;
    var n :| ValueIn(env, e0, v) == Some(LInt(n)) && Represents(ir0, v, n);
    forall p | PolyValue(p, v) == n
      ensures PolyValue(PolyNeg(p), v) == -n
    {
      NegValue(p, v);
    }
    MapNumMeaning(PolyNeg, ir0, v, n, -n);
  }

  lemma ShiftMeaning(env: Env, e1: Expr, k: nat, ir1: Ir, v: Valuation)
    requires IntMeaning(env, e1, ir1, v)
    ensures IntMeaning(env, EBinop(SHL, e1, ELiteral(LInt(k))), MapNum(ScaleBy(Power(2, k)), ir1), v)
  {
    var n :| ValueIn(env, e1, v) == Some(LInt(n)) && Represents(ir1, v, n);
    var f := ScaleBy(Power(2, k));
    forall p | PolyValue(p, v) == n
      ensures PolyValue(f(p), v) == n * Power(2, k)
    {
      ScaleValue(Power(2, k), p, v);
    }
    MapNumMeaning(f, ir1, v, n, n * Power(2, k));
    var e2 := ELiteral(LInt(k));
    assert ValueIn(env, e2, v) == Some(LInt(k));
    assert ValueIn(env, EBinop(SHL, e1, e2), v) == Some(LInt(n * Power(2, k)));
  }

  lemma IfMeaning(env: Env, e: Expr, cs: seq<Ctnts>, ncs: seq<Ctnts>, ir1: Ir, ir2: Ir, v: Valuation)
    requires e.ECond? && CondMeaning(env, e.cond, cs, ncs, v)
    requires IntMeaning(env, e.thn, ir1, v) && IntMeaning(env, e.els, ir2, v)
    ensures IntMeaning(env, e, Restrict(cs, ir1) + Restrict(ncs, ir2), v)
  {
    var b :| ValueIn(env, e.cond, v) == Some(LBool(b)) && (AnyHolds(cs, v) <==> b) && (AnyHolds(ncs, v) <==> !b);
    var n1 :| ValueIn(env, e.thn, v) == Some(LInt(n1)) && Represents(ir1, v, n1);
    var n2 :| ValueIn(env, e.els, v) == Some(LInt(n2)) && Represents(ir2, v, n2);
    BranchesMeaning(cs, ncs, ir1, ir2, b, v, n1, n2);
    assert ValueIn(env, e, v) == Some(LInt(if b then n1 else n2));
  }

  lemma BranchesMeaning(cs: seq<Ctnts>, ncs: seq<Ctnts>, ir1: Ir, ir2: Ir, b: bool, v: Valuation, n1: int, n2: int)
    requires Represents(ir1, v, n1) && Represents(ir2, v, n2)
    requires (AnyHolds(cs, v) <==> b) && (AnyHolds(ncs, v) <==> !b)
    ensures Represents(Restrict(cs, ir1) + Restrict(ncs, ir2), v, if b then n1 else n2)
  {
    RestrictMeaning(cs, ir1, v, n1);
    RestrictMeaning(ncs, ir2, v, n2);
    ConcatMeaning(Restrict(cs, ir1), Restrict(ncs, ir2), v, if b then n1 else n2);
  }

  /** to_cond splits the valuations into those where the condition is true and those where it is false. */
  lemma {:induction false} CompileCondMeaning(env: Env, e: Expr, v: Valuation)
    requires DeclaredInOrder(env) && Consistent(env, v)
    requires CompileCond(env, e).Some?
    ensures var (cs, ncs) := CompileCond(env, e).value; CondMeaning(env, e, cs, ncs, v)
    decreases Rank(env, e), Size(e), 1
  {
    var (cs, ncs) := CompileCond(env, e).value;
    match e
    case ELiteral(l) =>
      BoolMeaning(env, l.b, v);
    case EBinop(op, e1, e2) =>
      if op == EQ_OP {
        CompileMeaning(env, EBinop(MINUS, e1, e2), v);
        EqMeaning(env, e1, e2, Compile(env, EBinop(MINUS, e1, e2)).value, v);
      } else {
        CompileCondMeaning(env, e1, v);
        CompileCondMeaning(env, e2, v);
        var (c1, n1) := CompileCond(env, e1).value;
        var (c2, n2) := CompileCond(env, e2).value;
        AndOrMeaning(env, e, c1, n1, c2, n2, v);
      }
    case ECond(c, e1, e2) =>
      CompileCondMeaning(env, c, v);
      CompileCondMeaning(env, e1, v);
      CompileCondMeaning(env, e2, v);
      var (cc, nc) := CompileCond(env, c).value;
      var (c1, n1) := CompileCond(env, e1).value;
      var (c2, n2) := CompileCond(env, e2).value;
      CondCondMeaning(env, e, cc, nc, c1, n1, c2, n2, v);
    case _ =>
  }

  lemma BoolMeaning(env: Env, b: bool, v: Valuation)
    ensures CondMeaning(env, ELiteral(LBool(b)), [CtntsOfBool(b)], [CtntsOfBool(!b)], v)
  {
    assert CtntsOfBool(b) in [CtntsOfBool(b)] && CtntsOfBool(!b) in [CtntsOfBool(!b)];
    assert ValueIn(env, ELiteral(LBool(b)), v) == Some(LBool(b));
  }

  lemma AndOrMeaning(env: Env, e: Expr, c1: seq<Ctnts>, n1: seq<Ctnts>, c2: seq<Ctnts>, n2: seq<Ctnts>, v: Valuation)
    requires e.EBinop? && CondMeaning(env, e.e1, c1, n1, v) && CondMeaning(env, e.e2, c2, n2, v)
    ensures e.op == BAND ==> CondMeaning(env, e, CrossAnd(c1, c2), n1 + n2, v)
    ensures e.op == BOR ==> CondMeaning(env, e, c1 + c2, CrossAnd(n1, n2), v)
  {
    hide ValueIn; hide AnyHolds; hide CrossAnd;
    var b1 :| ValueIn(env, e.e1, v) == Some(LBool(b1)) && (AnyHolds(c1, v) <==> b1) && (AnyHolds(n1, v) <==> !b1);
    var b2 :| ValueIn(env, e.e2, v) == Some(LBool(b2)) && (AnyHolds(c2, v) <==> b2) && (AnyHolds(n2, v) <==> !b2);
    CrossAndSpec(c1, c2, v);
    AnyHoldsConcat(n1, n2, v);
    CrossAndSpec(n1, n2, v);
    AnyHoldsConcat(c1, c2, v);
    LogicValue(env, e, b1, b2, v);
  }

  lemma LogicValue(env: Env, e: Expr, b1: bool, b2: bool, v: Valuation)
    requires e.EBinop? && ValueIn(env, e.e1, v) == Some(LBool(b1)) && ValueIn(env, e.e2, v) == Some(LBool(b2))
    ensures e.op == BAND ==> ValueIn(env, e, v) == Some(LBool(b1 && b2))
    ensures e.op == BOR ==> ValueIn(env, e, v) == Some(LBool(b1 || b2))
  {}

  lemma EqMeaning(env: Env, e1: Expr, e2: Expr, ir: Ir, v: Valuation)
    requires IntMeaning(env, EBinop(MINUS, e1, e2), ir, v)
    ensures CondMeaning(env, EBinop(EQ_OP, e1, e2), IrToCond(Null, ir), IrToCond(NotNull, ir), v)
  {
    var n :| ValueIn(env, EBinop(MINUS, e1, e2), v) == Some(LInt(n)) && Represents(ir, v, n);
    IrToCondMeaning(Null, ir, v, n);
    IrToCondMeaning(NotNull, ir, v, n);
    assert ValueIn(env, EBinop(EQ_OP, e1, e2), v) == Some(LBool(n == 0));
  }

  lemma CondCondMeaning(env: Env, e: Expr, cc: seq<Ctnts>, nc: seq<Ctnts>, c1: seq<Ctnts>, n1: seq<Ctnts>,
                        c2: seq<Ctnts>, n2: seq<Ctnts>, v: Valuation)
    requires e.ECond? && CondMeaning(env, e.cond, cc, nc, v)
    requires CondMeaning(env, e.thn, c1, n1, v) && CondMeaning(env, e.els, c2, n2, v)
    ensures CondMeaning(env, e, CrossAnd(cc, c1) + CrossAnd(nc, c2), CrossAnd(nc + n1, cc + n2), v)
  {
    hide AnyHolds; hide CrossAnd;
    var b :| ValueIn(env, e.cond, v) == Some(LBool(b)) && (AnyHolds(cc, v) <==> b) && (AnyHolds(nc, v) <==> !b);
    var b1 :| ValueIn(env, e.thn, v) == Some(LBool(b1)) && (AnyHolds(c1, v) <==> b1) && (AnyHolds(n1, v) <==> !b1);
    var b2 :| ValueIn(env, e.els, v) == Some(LBool(b2)) && (AnyHolds(c2, v) <==> b2) && (AnyHolds(n2, v) <==> !b2);
    CrossAndSpec(cc, c1, v);
    CrossAndSpec(nc, c2, v);
    AnyHoldsConcat(CrossAnd(cc, c1), CrossAnd(nc, c2), v);
    CrossAndSpec(nc + n1, cc + n2, v);
    AnyHoldsConcat(nc, n1, v);
    AnyHoldsConcat(cc, n2, v);
    assert ValueIn(env, e, v) == Some(LBool(if b then b1 else b2));
  }
}
