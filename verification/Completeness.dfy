/** What compilation accepts, what is read as an equation, and the shape of reduced disjunctions (asllib/StaticInterpreter.ml). */
module Completeness {
  import opened Prelude
  import opened Polynomial
  import opened Constraint
  import opened Expression
  import opened ToIr
  import opened Substitution
  import opened Equations
  import opened Normalize
  import opened OfIr
  import opened Nonvanishing
  import opened Branches
  import opened F = NormalForm
  import opened Limits
  import opened Comparison

  // ---------------------------------------------------------------- compilation

  /** Static evaluation gives an integer. */
  predicate StaticInt(env: Env, e: Expr) {
    Eval(e, StaticLookup(env)).Some? && Eval(e, StaticLookup(env)).value.LInt?
  }

  /** Arithmetic over the integer variables, with cases on equalities; other operators on constants. */
  predicate InFragment(env: Env, e: Expr)
    requires DeclaredInOrder(env)
    decreases Rank(env, e), Size(e)
  {
    match e
    case ELiteral(l) => l.LInt?
    case EVar(x) =>
      if x in env.constants then env.constants[x].LInt?
      else x in env.types && (env.types[x].OtherInt? || (env.types[x].ExactInt? && InFragment(env, env.types[x].value)))
    case EBinop(op, e1, e2) =>
      if op == PLUS || op == MINUS || op == MUL then InFragment(env, e1) && InFragment(env, e2)
      else if op == SHL && e2.ELiteral? && e2.lit.LInt? && e2.lit.i >= 0 then InFragment(env, e1)
      else StaticInt(env, e)
    case EUnop(op, e0) => op == NEG && InFragment(env, e0)
    case ECond(c, e1, e2) => IsTest(env, c) && InFragment(env, e1) && InFragment(env, e2)
  }

  predicate IsTest(env: Env, e: Expr)
    requires DeclaredInOrder(env)
    decreases Rank(env, e), Size(e)
  {
    match e
    case ELiteral(l) => l.LBool?
    case EBinop(op, e1, e2) =>
      if op == EQ_OP then InFragment(env, e1) && InFragment(env, e2)
      else (op == BAND || op == BOR) && IsTest(env, e1) && IsTest(env, e2)
    case ECond(c, e1, e2) => IsTest(env, c) && IsTest(env, e1) && IsTest(env, e2)
    case _ => false
  }

  lemma {:induction false} MinusCompiles(env: Env, e1: Expr, e2: Expr)
    requires DeclaredInOrder(env)
    ensures Compile(env, EBinop(MINUS, e1, e2)).Some? <==> Compile(env, e1).Some? && Compile(env, e2).Some?
  {
    hide CrossNum; hide MapNum;
    assert Compile(env, EBinop(MINUS, e1, e2)) == Compile(env, EBinop(PLUS, e1, EUnop(NEG, e2)));
    assert Compile(env, EUnop(NEG, e2)).Some? <==> Compile(env, e2).Some?;
  }

  /** All of it compiles. */
  lemma {:induction false} FragmentCompiles(env: Env, e: Expr)
    requires DeclaredInOrder(env)
    ensures InFragment(env, e) ==> Compile(env, e).Some?
    ensures IsTest(env, e) ==> CompileCond(env, e).Some?
    decreases Rank(env, e), Size(e)
  {
    hide DeclaredInOrder; hide CrossNum; hide MapNum; hide Restrict; hide CrossAnd; hide IrToCond;
    match e
    case ELiteral(_) =>
    case EVar(x) => FragmentVar(env, x);
    case EBinop(op, e1, e2) =>
      FragmentCompiles(env, e1);
      FragmentCompiles(env, e2);
      MinusCompiles(env, e1, e2);
      if op == PLUS || op == MINUS || op == MUL || (op == SHL && e2.ELiteral? && e2.lit.LInt? && e2.lit.i >= 0) {
      } else if StaticInt(env, e) {
        StaticPlain(env, e);
      }
    case EUnop(_, e0) =>
      FragmentCompiles(env, e0);
    case ECond(c, e1, e2) =>
      FragmentCompiles(env, c);
      FragmentCompiles(env, e1);
      FragmentCompiles(env, e2);
  }

  lemma {:induction false} FragmentVar(env: Env, x: Atom)
    requires DeclaredInOrder(env)
    ensures InFragment(env, EVar(x)) ==> Compile(env, EVar(x)).Some?
    decreases Rank(env, EVar(x)), Size(EVar(x)), 0
  {
    if x !in env.constants && x in env.types && env.types[x].ExactInt? {
      FragmentCompiles(env, env.types[x].value);
    }
  }

  /** No cases, also in the definitions of its variables. */
  predicate Flat(env: Env, e: Expr)
    requires DeclaredInOrder(env)
    decreases Rank(env, e), Size(e)
  {
    match e
    case ELiteral(_) => true
    case EVar(x) => x !in env.constants && x in env.types && env.types[x].ExactInt? ==> Flat(env, env.types[x].value)
    case EBinop(_, e1, e2) => Flat(env, e1) && Flat(env, e2)
    case EUnop(_, e0) => Flat(env, e0)
    case ECond(_, _, _) => false
  }

  ghost predicate IsPlain(env: Env, e: Expr)
    requires DeclaredInOrder(env)
  {
    exists p :: Plain(env, e, p)
  }

  /** Without cases it compiles to one branch without constraints. */
  lemma {:induction false} FlatPlain(env: Env, e: Expr)
    requires DeclaredInOrder(env) && InFragment(env, e) && Flat(env, e)
    ensures IsPlain(env, e)
    decreases Rank(env, e), Size(e)
  {
    hide DeclaredInOrder; hide CrossNum; hide MapNum;
    match e
    case ELiteral(l) => assert Plain(env, e, PolyOfZ(l.i));
    case EVar(x) => FlatVar(env, x);
    case EBinop(op, e1, e2) =>
      if op == PLUS || op == MINUS || op == MUL {
        FlatPlain(env, e1);
        FlatPlain(env, e2);
        var p1 :| Plain(env, e1, p1);
        var p2 :| Plain(env, e2, p2);
        BinopPlain(env, e, p1, p2);
      } else if op == SHL && e2.ELiteral? && e2.lit.LInt? && e2.lit.i >= 0 {
        FlatPlain(env, e1);
        var p1 :| Plain(env, e1, p1);
        MapSingle(ScaleBy(Power(2, e2.lit.i)), p1);
        assert Plain(env, e, PolyScale(Power(2, e2.lit.i), p1));
      } else {
        StaticPlain(env, e);
      }
    case EUnop(_, e0) =>
      FlatPlain(env, e0);
      var p0 :| Plain(env, e0, p0);
      MapSingle(PolyNeg, p0);
      assert Plain(env, e, PolyNeg(p0));
  }

  lemma StaticPlain(env: Env, e: Expr)
    requires DeclaredInOrder(env) && e.EBinop? && StaticInt(env, e)
    requires e.op != PLUS && e.op != MINUS && e.op != MUL
    requires !(e.op == SHL && e.e2.ELiteral? && e.e2.lit.LInt? && e.e2.lit.i >= 0)
    ensures Plain(env, e, PolyOfZ(Eval(e, StaticLookup(env)).value.i)) && IsPlain(env, e)
  {
    hide BinopValues;
    assert Plain(env, e, PolyOfZ(Eval(e, StaticLookup(env)).value.i));
  }

  lemma {:induction false} FlatVar(env: Env, x: Atom)
    requires DeclaredInOrder(env) && InFragment(env, EVar(x)) && Flat(env, EVar(x))
    ensures IsPlain(env, EVar(x))
    decreases Rank(env, EVar(x)), Size(EVar(x)), 0
  {
    if x in env.constants {
      assert Plain(env, EVar(x), PolyOfZ(env.constants[x].i));
    } else if env.types[x].ExactInt? {
      FlatPlain(env, env.types[x].value);
      var p :| Plain(env, env.types[x].value, p);
      assert Plain(env, EVar(x), p);
    } else {
      assert Plain(env, EVar(x), PolyOfVar(x));
    }
  }

  lemma MapSingle(f: Poly -> Poly, p: Poly)
    ensures MapNum(f, Always(p)) == Always(f(p))
  {
    assert Always(p)[1..] == [];
  }

  lemma CrossPlain(p1: Poly, p2: Poly, f: (Poly, Poly) -> Poly)
    ensures CrossNum(Always(p1), Always(p2), f) == Always(f(p1, p2))
  {
    AndTrue(CTNTS_TRUE);
    assert Always(p1)[1..] == [] && Always(p2)[1..] == [];
    assert CrossOne(Always(p1)[0], Always(p2), f) == Always(f(p1, p2));
  }

  lemma BinopPlain(env: Env, e: Expr, p1: Poly, p2: Poly)
    requires DeclaredInOrder(env) && e.EBinop? && (e.op == PLUS || e.op == MINUS || e.op == MUL)
    requires Plain(env, e.e1, p1) && Plain(env, e.e2, p2)
    ensures IsPlain(env, e)
  {
    hide CrossNum;
    if e.op == MINUS {
      CompileDifference(env, e.e1, e.e2, p1, p2);
      assert Plain(env, e, AddPolys(p1, PolyNeg(p2)));
    } else {
      var f := if e.op == PLUS then AddPolys else MultPolys;
      CrossPlain(p1, p2, f);
      assert Plain(env, e, f(p1, p2));
    }
  }

  /** Two arithmetic expressions without cases are found equal exactly when they have the same value at every valuation. */
  lemma ArithmeticEqualIff(env: Env, e1: Expr, e2: Expr)
    requires DeclaredInOrder(env) && Extendable(env)
    requires InFragment(env, e1) && Flat(env, e1) && InFragment(env, e2) && Flat(env, e2)
    ensures EqualInEnv(env, e1, e2) <==> AlwaysSame(env, e1, e2)
    ensures NormalForm(env, e1) == NormalForm(env, e2) <==> AlwaysSame(env, e1, e2)
  {
    hide Compile; hide EqualInEnv; hide NormalForm; hide AlwaysSame; hide Extendable; hide Plain; hide InFragment; hide Flat;
    FlatPlain(env, e1);
    FlatPlain(env, e2);
    var p1 :| Plain(env, e1, p1);
    var p2 :| Plain(env, e2, p2);
    EqualInEnvIff(env, e1, e2, p1, p2);
    NormalFormIff(env, e1, e2, p1, p2);
  }

  // ---------------------------------------------------------------- equations

  function Everything(): Atom -> bool {
    _ => true
  }

  ghost predicate IsConstantly(p: Poly, c: int) {
    forall v :: PolyValue(p, v) == c
  }

  lemma ProperAnywhere(p: Poly, allowed: Atom -> bool)
    requires Proper(p, allowed)
    ensures Proper(DropZeros(p), Everything()) && Canonical(DropZeros(p))
  {}

  /** A polynomial with these values is read like any other with the same values. */
  lemma ReadByValue(p: Poly, q: Poly, allowed: Atom -> bool)
    requires Proper(p, allowed) && Canonical(q) && Proper(q, Everything()) && forall v :: PolyValue(p, v) == PolyValue(q, v)
    ensures GetLinear(p) == GetLinear(q)
  {
    hide PolyValue; hide Proper; hide GetLinear; hide Canonical;
    ProperAnywhere(p, allowed);
    forall v
      ensures PolyValue(DropZeros(p), v) == PolyValue(q, v)
    {
      DropZerosValue(p, v);
    }
    SameValues(DropZeros(p), q, Everything());
    DropZerosTwice(p);
  }

  /** f * x - c */
  function LinearPoly(f: int, x: Atom, c: int): Poly {
    if c == 0 then map[map[x := 1] := f] else Binomial(f, x, -c)
  }

  lemma LinearPolySpec(f: int, x: Atom, c: int)
    requires f != 0
    ensures var q := LinearPoly(f, x, c);
            && Canonical(q) && Proper(q, Everything()) && GetLinear(q) == Equation(x, c)
            && forall v :: PolyValue(q, v) == f * v(x) - c
  {
    hide PolyValue; hide GetLinear;
    var q := LinearPoly(f, x, c);
    forall v
      ensures PolyValue(q, v) == f * v(x) - c && GetLinear(q) == Equation(x, c)
    {
      if c == 0 {
        MultipleOf(f, x, v);
      } else {
        BinomialValue(f, x, -c, v);
        BinomialLinear(f, x, -c);
      }
    }
    var zero: Valuation := _ => 0;
    assert PolyValue(q, zero) == f * zero(x) - c;
  }

  /** poly_get_linear finds an equation for x exactly when the polynomial is f * x - c at every valuation. */
  lemma LinearIff(p: Poly, x: Atom, c: int, allowed: Atom -> bool)
    requires Proper(p, allowed)
    ensures GetLinear(p) == Equation(x, c) <==> exists f :: f != 0 && IsLinear(p, f, x, c)
  {
    hide PolyValue; hide GetLinear; hide Factor; hide Proper;
    GetLinearMeaning(p);
    if GetLinear(p) == Equation(x, c) {
      EquationFactor(p);
    }
    if f :| f != 0 && IsLinear(p, f, x, c) {
      LinearPolySpec(f, x, c);
      ReadByValue(p, LinearPoly(f, x, c), allowed);
    }
  }

  /** It finds a contradiction exactly when the polynomial is the same number other than zero at every valuation. */
  lemma ContradictionIff(p: Poly, allowed: Atom -> bool)
    requires Proper(p, allowed)
    ensures GetLinear(p) == Contradiction <==> exists c :: c != 0 && IsConstantly(p, c)
  {
    hide PolyValue; hide Proper;
    if GetLinear(p) == Contradiction {
      ContradictionConstant(p);
    }
    if c :| c != 0 && IsConstantly(p, c) {
      forall v
        ensures PolyValue(PolyOfZ(c), v) == c
      {
        ConstantValue(c, v);
      }
      hide GetLinear;
      ConstantProper(c);
      ReadByValue(p, PolyOfZ(c), allowed);
      ConstantRead(c);
    }
  }

  lemma ConstantProper(c: int)
    requires c != 0
    ensures Canonical(PolyOfZ(c)) && Proper(PolyOfZ(c), Everything())
  {}

  lemma ConstantRead(c: int)
    requires c != 0
    ensures GetLinear(PolyOfZ(c)) == Contradiction
  {
    assert DropZeros(PolyOfZ(c)) == PolyOfZ(c);
    LinearFoldConstant(c, None, 0);
  }

  lemma ContradictionConstant(p: Poly)
    requires GetLinear(p) == Contradiction
    ensures exists c :: c != 0 && IsConstantly(p, c)
  {
    hide PolyValue; hide LinearFold;
    var c := LinearFold(DropZeros(p), None, 0).value.1;
    forall v
      ensures PolyValue(p, v) == -c
    {
      DropZerosValue(p, v);
      LinearFoldValue(DropZeros(p), None, 0, v);
    }
    assert IsConstantly(p, -c);
  }

  // ---------------------------------------------------------------- reduced disjunctions

  /** Only the last branch may be free of constraints. */
  ghost predicate LastFree(ir: Ir) {
    forall i :: 0 <= i < |ir| - 1 ==> ir[i].0 != CTNTS_TRUE
  }

  lemma {:induction false} CollapseShape(ir: Ir)
    requires forall b :: b in ir ==> OpenBranch(b)
    ensures forall b :: b in Collapse(ir) ==> b in ir
    ensures LastFree(Collapse(ir))
  {
    if ir != [] {
      hide OpenBranch; hide Collapse;
      assert ir[0] in ir;
      CollapseShape(ir[1..]);
      CollapseOpen(ir);
      assert Collapse(ir) == (if ir[0].0 == CTNTS_TRUE then [ir[0]] else [ir[0]] + Collapse(ir[1..])) by {
        assert ir[0].0 == CTNTS_TRUE ==> Always(ir[0].1) == [ir[0]];
      }
    } else {
      CollapseEmpty();
    }
  }

  /**
   * Reduced constraints are conjunctions on polynomials that are not constant, free of zero factors; every branch but
   * the last has some.
   */
  lemma ReduceShape(ir: Ir, allowed: Atom -> bool)
    requires ProperIr(ir, allowed)
    ensures var r := Reduce(ir);
            LastFree(r) && PrintableIr(r, allowed) && forall b :: b in r ==> b.0.Conjunction? && NoConstants(b.0.signs)
  {
    hide ProperIr; hide PrintableIr; hide ReduceBranches; hide Collapse; hide NoConstants; hide LastFree;
    ReduceBranchesOpen(ir);
    CollapseShape(ReduceBranches(ir));
    ReduceBranchesClean(ir, allowed);
    CollapseClean(ReduceBranches(ir), allowed);
  }
}
