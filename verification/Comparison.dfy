/** What equal_in_env and normalize decide (asllib/StaticInterpreter.ml, Normalize). */
module Comparison {
  import opened Prelude
  import opened Polynomial
  import opened Constraint
  import opened Expression
  import opened ToIr
  import opened Substitution
  import opened Equations
  import opened Normalize
  import opened OfIr
  import opened Nonvanishing
  import opened F = NormalForm
  import opened Limits
  import opened Unprintable

  // ---------------------------------------------------------------- two branches

  /** The polynomials have the same value wherever the affected atoms have their values. */
  ghost predicate SameAfter(p1: Poly, p2: Poly, affs: seq<Affectation>) {
    forall v :: PolyValue(p1, Override(affs, v)) == PolyValue(p2, Override(affs, v))
  }

  lemma {:induction false} AssignedForget(affs: seq<Affectation>, x: Atom, d: int)
    ensures Assigned(Forget(affs), x, d) == Assigned(affs, x, d)
  {
    if affs != [] {
      AssignedForget(affs[1..], x, d);
      assert Forget(affs)[1..] == Forget(affs[1..]);
    }
  }

  lemma {:induction false} OthersForget(affs: seq<Affectation>, p: Poly)
    ensures Others(Forget(affs), p) == Forget(affs)
  {
    if affs != [] {
      OthersForget(affs[1..], p);
      assert Forget(affs)[1..] == Forget(affs[1..]);
    }
  }

  lemma ForgetValue(affs: seq<Affectation>, p: Poly, v: Valuation)
    ensures PolyValue(ReducePoly(Forget(affs), p), v) == PolyValue(p, Override(affs, v))
  {
    hide PolyValue; hide ReducePoly; hide Others;
    ReducePolyValue(Forget(affs), p, v);
    OthersForget(affs, DropZeros(p));
    forall x
      ensures Override(Forget(affs), v)(x) == Override(affs, v)(x)
    {
      AssignedForget(affs, x, v(x));
    }
    PolyValueExt(p, Override(Forget(affs), v), Override(affs, v));
  }

  /** A single null constraint is reduced to nothing exactly when its polynomial is. */
  lemma SingleReducedIff(affs: seq<Affectation>, p: Poly, allowed: Atom -> bool)
    requires Proper(p, allowed)
    ensures ReduceCtnts(affs, Conjunction(map[p := Null])) == CTNTS_TRUE <==> ReducePoly(affs, p) == map[]
  {
    hide ReducePoly; hide Proper; hide Canonical;
    var q, signs: map<Poly, Sign> := ReducePoly(affs, p), map[p := Null];
    assert signs - {p} == map[] && Pick(signs) == p;
    MinusSmaller(signs, p);
    if q == map[] {
      SingleReduced(affs, p);
    } else {
      ReducePolyClean(affs, p, allowed);
      CanonicalConstant(q);
      assert q in map[q := Null];
      assert ReduceFold(affs, signs, map[]) ==
             if GetConstant(q).Some? then None else ReduceFold(affs, map[], map[q := Null]);
    }
  }

  lemma CanonicalConstant(q: Poly)
    requires Canonical(q) && q != map[]
    ensures GetConstant(q) != Some(0)
  {}

  /**
   * Two branches are found equal exactly when their joint constraints are not found contradictory, and their
   * polynomials have the same value at every valuation once the deduced values are substituted.
   */
  lemma EqualBranchesIff(b1: Branch, b2: Branch, allowed: Atom -> bool)
    requires Proper(b1.1, allowed) && Proper(b2.1, allowed)
    ensures EqualBranches(b1, b2) <==>
              var (c, affs) := Deduce(CtntsAnd(b1.0, b2.0)); c.Conjunction? && SameAfter(b1.1, b2.1, affs)
  {
    hide Deduce; hide ReducePoly; hide ReduceCtnts; hide Proper; hide PolyValue; hide AddPolys; hide PolyNeg; hide Canonical;
    hide CtntsAnd; hide Forget;
    var affs := Deduce(CtntsAnd(b1.0, b2.0)).1;
    var d := AddPolys(b1.1, PolyNeg(b2.1));
    var q := ReducePoly(Forget(affs), d);
    ProperOperations(b2.1, b2.1, 1, allowed);
    ProperOperations(b1.1, PolyNeg(b2.1), 1, allowed);
    SingleReducedIff(Forget(affs), d, allowed);
    ReducePolyClean(Forget(affs), d, allowed);
    forall v
      ensures PolyValue(q, v) == PolyValue(b1.1, Override(affs, v)) - PolyValue(b2.1, Override(affs, v))
    {
      ForgetValue(affs, d, v);
      AddPolysValue(b1.1, PolyNeg(b2.1), Override(affs, v));
      NegValue(b2.1, Override(affs, v));
    }
    if SameAfter(b1.1, b2.1, affs) {
      ZeroEverywhere(q, allowed);
    }
    if q == map[] {
      forall v
        ensures PolyValue(b1.1, Override(affs, v)) == PolyValue(b2.1, Override(affs, v))
      {
        EmptyValues(v);
      }
    }
  }

  // ---------------------------------------------------------------- expressions without cases

  /** e compiles to one branch without constraints. */
  ghost predicate Plain(env: Env, e: Expr, p: Poly)
    requires DeclaredInOrder(env)
  {
    Compile(env, e) == Some(Always(p))
  }

  ghost predicate SameEverywhere(p1: Poly, p2: Poly) {
    forall v :: PolyValue(p1, v) == PolyValue(p2, v)
  }

  lemma PlainReduced(p: Poly)
    ensures Reduce(Always(p)) == Always(ReducePoly([], p))
  {
    hide Deduce; hide ReducePoly;
    NothingDeduced();
    var ir := Always(p);
    assert ir[1..] == [];
    assert ReduceBranches(ir) == [(CTNTS_TRUE, ReducePoly([], p))] + ReduceBranches([]);
    assert TrivialFold(map[]) == Some(true);
  }

  lemma PlainProper(env: Env, e: Expr, p: Poly)
    requires DeclaredInOrder(env) && Plain(env, e, p)
    ensures Proper(p, AtomsOf(env))
  {
    hide Compile;
    CompileProper(env, e);
    assert (CTNTS_TRUE, p) in Always(p);
  }

  lemma NothingSubstituted(p: Poly, v: Valuation)
    ensures PolyValue(ReducePoly([], p), v) == PolyValue(p, v) && PolyValue(p, Override([], v)) == PolyValue(p, v)
  {
    hide PolyValue; hide ReducePoly;
    ReducePolySame([], p, v);
    PolyValueExt(p, Override([], v), v);
  }

  /** Expressions without cases are found equal exactly when their polynomials have the same values. */
  lemma PlainEqualIff(env: Env, e1: Expr, e2: Expr, p1: Poly, p2: Poly)
    requires DeclaredInOrder(env) && Plain(env, e1, p1) && Plain(env, e2, p2)
    ensures EqualInEnv(env, e1, e2) <==> SameEverywhere(p1, p2)
  {
    hide Compile; hide Reduce; hide EqualBranches; hide PolyValue; hide ReducePoly; hide Proper; hide Canonical; hide Deduce;
    hide CtntsAnd;
    var q1, q2 := ReducePoly([], p1), ReducePoly([], p2);
    PlainReduced(p1);
    PlainReduced(p2);
    PlainProper(env, e1, p1);
    PlainProper(env, e2, p2);
    ReducePolyClean([], p1, AtomsOf(env));
    ReducePolyClean([], p2, AtomsOf(env));
    var b1, b2 := (CTNTS_TRUE, q1), (CTNTS_TRUE, q2);
    assert b1 in Always(q1) && b2 in Always(q2);
    assert EqualInEnv(env, e1, e2) <==> EqualBranches(b1, b2);
    AndTrue(CTNTS_TRUE);
    NothingDeduced();
    EqualBranchesIff(b1, b2, AtomsOf(env));
    PlainAfterIff(p1, p2);
  }

  lemma PlainAfterIff(p1: Poly, p2: Poly)
    ensures SameAfter(ReducePoly([], p1), ReducePoly([], p2), []) <==> SameEverywhere(p1, p2)
  {
    hide PolyValue; hide ReducePoly;
    var q1, q2 := ReducePoly([], p1), ReducePoly([], p2);
    forall v
      ensures PolyValue(q1, Override([], v)) == PolyValue(p1, v) && PolyValue(q2, Override([], v)) == PolyValue(p2, v)
    {
      NothingSubstituted(p1, v);
      NothingSubstituted(p2, v);
      NothingSubstituted(q1, v);
      NothingSubstituted(q2, v);
    }
    if SameAfter(q1, q2, []) {
      forall v
        ensures PolyValue(p1, v) == PolyValue(p2, v)
      {
        assert PolyValue(q1, Override([], v)) == PolyValue(q2, Override([], v));
      }
    }
  }

  /** Expressions without cases have the same normal form exactly when their polynomials have the same values. */
  lemma PlainNormalFormIff(env: Env, e1: Expr, e2: Expr, p1: Poly, p2: Poly)
    requires DeclaredInOrder(env) && Plain(env, e1, p1) && Plain(env, e2, p2)
    ensures NormalForm(env, e1).Some? && NormalForm(env, e2).Some?
    ensures NormalForm(env, e1) == NormalForm(env, e2) <==> SameEverywhere(p1, p2)
  {
    hide Compile; hide Reduce; hide PolyValue; hide ReducePoly; hide Proper; hide Canonical; hide PolyToExpr;
    var q1, q2 := ReducePoly([], p1), ReducePoly([], p2);
    PlainReduced(p1);
    PlainReduced(p2);
    PlainProper(env, e1, p1);
    PlainProper(env, e2, p2);
    ReducePolyClean([], p1, AtomsOf(env));
    ReducePolyClean([], p2, AtomsOf(env));
    assert NormalForm(env, e1) == Some(PolyToExpr(q1)) && NormalForm(env, e2) == Some(PolyToExpr(q2));
    forall v
      ensures PolyValue(q1, v) == PolyValue(p1, v) && PolyValue(q2, v) == PolyValue(p2, v)
    {
      NothingSubstituted(p1, v);
      NothingSubstituted(p2, v);
    }
    if SameEverywhere(p1, p2) {
      SameValues(q1, q2, AtomsOf(env));
    }
    if PolyToExpr(q1) == PolyToExpr(q2) {
      forall v
        ensures PolyValue(p1, v) == PolyValue(p2, v)
      {
        var look: Lookup := x => Some(LInt(v(x)));
        PolyToExprValue(q1, look, v, AtomsOf(env));
        PolyToExprValue(q2, look, v, AtomsOf(env));
      }
    }
  }

  // ---------------------------------------------------------------- in terms of values

  /** Every valuation of the atoms extends to the local definitions. */
  ghost predicate Extendable(env: Env) {
    forall v: Valuation :: HasExtension(env, v)
  }

  ghost predicate HasExtension(env: Env, v: Valuation) {
    exists w :: Consistent(env, w) && forall x :: IsAtom(env, x) ==> w(x) == v(x)
  }

  lemma {:induction false} MonoValueAtoms(m: Mono, allowed: Atom -> bool, v: Valuation, w: Valuation)
    requires (forall x :: x in m ==> allowed(x)) && forall x :: allowed(x) ==> v(x) == w(x)
    ensures MonoValue(m, v) == MonoValue(m, w)
  {
    MonoValueExt(m, v, w);
  }

  lemma {:induction false} PolyValueAtoms(p: Poly, allowed: Atom -> bool, v: Valuation, w: Valuation)
    requires Proper(p, allowed) && forall x :: allowed(x) ==> v(x) == w(x)
    ensures PolyValue(p, v) == PolyValue(p, w)
    decreases |p|
  {
    if p != map[] {
      MinusSmaller(p, Pick(p));
      MonoValueAtoms(Pick(p), allowed, v, w);
      PolyValueAtoms(p - {Pick(p)}, allowed, v, w);
    }
  }

  lemma PlainValue(env: Env, e: Expr, p: Poly, v: Valuation)
    requires DeclaredInOrder(env) && Plain(env, e, p) && Consistent(env, v)
    ensures ValueIn(env, e, v) == Some(LInt(PolyValue(p, v)))
  {
    hide Compile; hide PolyValue;
    CompileMeaning(env, e, v);
    var n :| ValueIn(env, e, v) == Some(LInt(n)) && Represents(Always(p), v, n);
    AlwaysMeaning(p, v);
    assert (CTNTS_TRUE, p) in Always(p) && Holds(CTNTS_TRUE, v);
  }

  ghost predicate SameValue(env: Env, e1: Expr, e2: Expr, v: Valuation) {
    ValueIn(env, e1, v) == ValueIn(env, e2, v)
  }

  /** The expressions have the same value at every valuation. */
  ghost predicate AlwaysSame(env: Env, e1: Expr, e2: Expr) {
    forall v :: Consistent(env, v) ==> SameValue(env, e1, e2, v)
  }

  lemma PlainSame(env: Env, e1: Expr, e2: Expr, p1: Poly, p2: Poly)
    requires DeclaredInOrder(env) && Plain(env, e1, p1) && Plain(env, e2, p2) && Extendable(env)
    ensures SameEverywhere(p1, p2) <==>
            AlwaysSame(env, e1, e2)
  {
    hide Compile; hide PolyValue; hide Consistent; hide Proper; hide ValueIn;
    PlainProper(env, e1, p1);
    PlainProper(env, e2, p2);
    forall v | Consistent(env, v)
      ensures SameValue(env, e1, e2, v) <==> PolyValue(p1, v) == PolyValue(p2, v)
    {
      PlainValue(env, e1, p1, v);
      PlainValue(env, e2, p2, v);
    }
    if AlwaysSame(env, e1, e2) {
      forall v
        ensures PolyValue(p1, v) == PolyValue(p2, v)
      {
        assert HasExtension(env, v);
        var w :| Consistent(env, w) && forall x :: IsAtom(env, x) ==> w(x) == v(x);
        PolyValueAtoms(p1, AtomsOf(env), v, w);
        PolyValueAtoms(p2, AtomsOf(env), v, w);
        assert SameValue(env, e1, e2, w);
      }
    }
  }

  /** Expressions without cases are found equal exactly when they have the same value at every valuation. */
  lemma EqualInEnvIff(env: Env, e1: Expr, e2: Expr, p1: Poly, p2: Poly)
    requires DeclaredInOrder(env) && Plain(env, e1, p1) && Plain(env, e2, p2) && Extendable(env)
    ensures EqualInEnv(env, e1, e2) <==> AlwaysSame(env, e1, e2)
  {
    hide Compile; hide EqualInEnv; hide AlwaysSame; hide SameEverywhere; hide Extendable;
    PlainEqualIff(env, e1, e2, p1, p2);
    PlainSame(env, e1, e2, p1, p2);
  }

  /** Such expressions have the same normal form exactly when they have the same value at every valuation. */
  lemma NormalFormIff(env: Env, e1: Expr, e2: Expr, p1: Poly, p2: Poly)
    requires DeclaredInOrder(env) && Plain(env, e1, p1) && Plain(env, e2, p2) && Extendable(env)
    ensures NormalForm(env, e1) == NormalForm(env, e2) <==> AlwaysSame(env, e1, e2)
  {
    hide Compile; hide NormalForm; hide AlwaysSame; hide SameEverywhere; hide Extendable;
    PlainNormalFormIff(env, e1, e2, p1, p2);
    PlainSame(env, e1, e2, p1, p2);
  }

  // ---------------------------------------------------------------- environments whose definitions have values

  predicate IsExact(env: Env, x: Atom) {
    x in env.types && x !in env.constants && env.types[x].ExactInt?
  }

  ghost predicate HasInt(env: Env, e: Expr, v: Valuation) {
    exists n :: ValueIn(env, e, v) == Some(LInt(n))
  }

  /** Every local definition has an integer value, whatever the values of the variables in it. */
  ghost predicate Total(env: Env) {
    forall x, v: Valuation :: IsExact(env, x) ==> HasInt(env, env.types[x].value, v)
  }

  ghost function IntIn(env: Env, e: Expr, v: Valuation): int {
    match ValueIn(env, e, v)
    case Some(LInt(n)) => n
    case _ => 0
  }

  /** The definitions declared before number n have their values. */
  ghost function Settle(env: Env, v: Valuation, n: nat): Valuation {
    if n == 0 then v
    else
      var w := Settle(env, v, n - 1);
      x => if IsExact(env, x) && Order(env, x) == n - 1 then IntIn(env, env.types[x].value, w) else w(x)
  }

  lemma {:induction false} ValueInExt(env: Env, e: Expr, v: Valuation, w: Valuation)
    requires forall x :: Order(env, x) < Rank(env, e) ==> v(x) == w(x)
    ensures ValueIn(env, e, v) == ValueIn(env, e, w)
  {
    match e
    case ELiteral(_) =>
    case EVar(_) =>
    case EBinop(_, e1, e2) =>
      ValueInExt(env, e1, v, w);
      ValueInExt(env, e2, v, w);
    case EUnop(_, e0) =>
      ValueInExt(env, e0, v, w);
    case ECond(c, e1, e2) =>
      ValueInExt(env, c, v, w);
      ValueInExt(env, e1, v, w);
      ValueInExt(env, e2, v, w);
  }

  lemma {:induction false} SettleStays(env: Env, v: Valuation, n: nat, m: nat, x: Atom)
    requires n <= m && Order(env, x) < n
    ensures Settle(env, v, m)(x) == Settle(env, v, n)(x)
    decreases m
  {
    if n < m {
      SettleStays(env, v, n, m - 1, x);
    }
  }

  lemma {:induction false} SettleAtoms(env: Env, v: Valuation, n: nat, x: Atom)
    requires !IsExact(env, x)
    ensures Settle(env, v, n)(x) == v(x)
  {
    if n > 0 {
      SettleAtoms(env, v, n - 1, x);
    }
  }

  lemma SettleExact(env: Env, v: Valuation, n: nat, x: Atom)
    requires DeclaredInOrder(env) && Total(env) && IsExact(env, x) && Order(env, x) < n
    ensures ValueIn(env, env.types[x].value, Settle(env, v, n)) == Some(LInt(Settle(env, v, n)(x)))
  {
    hide ValueIn;
    var k, e := Order(env, x), env.types[x].value;
    SettleStays(env, v, k + 1, n, x);
    forall y | Order(env, y) < Rank(env, e)
      ensures Settle(env, v, n)(y) == Settle(env, v, k)(y)
    {
      SettleStays(env, v, k, n, y);
    }
    ValueInExt(env, e, Settle(env, v, n), Settle(env, v, k));
    assert HasInt(env, e, Settle(env, v, k));
  }

  lemma TotalExtendable(env: Env)
    requires DeclaredInOrder(env) && Total(env)
    ensures Extendable(env)
  {
    hide ValueIn; hide Settle; hide DeclaredInOrder; hide Total;
    var orders: set<int> := {0} + set x | x in env.types :: Order(env, x);
    assert 0 in orders;
    var n := Maximum(orders);
    forall v: Valuation
      ensures HasExtension(env, v)
    {
      var w := Settle(env, v, n + 1);
      forall x | IsExact(env, x)
        ensures ValueIn(env, env.types[x].value, w) == Some(LInt(w(x)))
      {
        assert Order(env, x) in orders;
        SettleExact(env, v, n + 1, x);
      }
      forall x | IsAtom(env, x)
        ensures w(x) == v(x)
      {
        SettleAtoms(env, v, n + 1, x);
      }
      assert Consistent(env, w);
    }
  }

  // ---------------------------------------------------------------- expressions with cases

  /** The answer on two branches, by values. */
  ghost predicate Compatible(b1: Branch, b2: Branch) {
    var (c, affs) := Deduce(CtntsAnd(b1.0, b2.0));
    c.Conjunction? && SameAfter(b1.1, b2.1, affs)
  }

  /** Expressions with cases are found equal exactly when all pairs of their reduced branches agree. */
  lemma EqualInEnvCases(env: Env, e1: Expr, e2: Expr)
    requires DeclaredInOrder(env)
    ensures EqualInEnv(env, e1, e2) <==>
              && Compile(env, e1).Some? && Compile(env, e2).Some?
              && forall b1, b2 :: b1 in Reduce(Compile(env, e1).value) && b2 in Reduce(Compile(env, e2).value) ==>
                   Compatible(b1, b2)
  {
    hide Compile; hide Collapse; hide ReduceBranches; hide EqualBranches; hide Proper; hide Printable; hide Compatible;
    if Compile(env, e1).Some? && Compile(env, e2).Some? {
      var ir1, ir2 := Reduce(Compile(env, e1).value), Reduce(Compile(env, e2).value);
      ReducedPrintable(env, e1);
      ReducedPrintable(env, e2);
      forall b1, b2 | b1 in ir1 && b2 in ir2
        ensures EqualBranches(b1, b2) <==> Compatible(b1, b2)
      {
        CompatibleIff(b1, b2, AtomsOf(env));
      }
    }
  }

  lemma CompatibleIff(b1: Branch, b2: Branch, allowed: Atom -> bool)
    requires Proper(b1.1, allowed) && Proper(b2.1, allowed)
    ensures EqualBranches(b1, b2) <==> Compatible(b1, b2)
  {
    hide EqualBranches; hide Deduce; hide SameAfter;
    EqualBranchesIff(b1, b2, allowed);
  }

  ghost predicate AllConstant(ir: Ir) {
    forall b :: b in ir ==> IsNumber(b.1)
  }

  ghost predicate IsNumber(p: Poly) {
    exists i :: i != 0 && p == PolyOfZ(i)
  }

  lemma {:induction false} ReducedConstant(ir: Ir)
    requires AllConstant(ir)
    ensures AllConstant(ReduceBranches(ir))
  {
    if ir != [] {
      hide Deduce; hide ReducePoly; hide PolyOfZ;
      assert ir[0] in ir;
      ReducedConstant(ir[1..]);
      var i :| i != 0 && ir[0].1 == PolyOfZ(i);
      ConstantReduced(Deduce(ir[0].0).1, i);
    }
  }

  lemma {:induction false} CollapsedConstant(ir: Ir)
    requires AllConstant(ir)
    ensures AllConstant(Collapse(ir))
  {
    if ir != [] {
      hide GetTrivial; hide IsNumber;
      assert ir[0] in ir;
      CollapsedConstant(ir[1..]);
    }
  }

  /** "if x == 1 then 5 else 6" is not found equal to itself: its two branches give different values. */
  lemma SelfRefused(x: Atom)
    ensures DeclaredInOrder(IntEnv(x)) && Compile(IntEnv(x), HalfInner(x)).Some?
    ensures !EqualInEnv(IntEnv(x), HalfInner(x), HalfInner(x))
  {
    hide Compile; hide Reduce; hide PolyValue; hide PolyOfZ; hide Compatible; hide One;
    var ir := TwoBranches(One(x), PolyOfZ(5), PolyOfZ(6));
    CompileHalfTests(x);
    EqualInEnvCases(IntEnv(x), HalfInner(x), HalfInner(x));
    var b1 := CaseAt(x, _ => 1, 5);
    var b2 := CaseAt(x, _ => 0, 6);
    NotCompatible(b1, b2, 5, 6);
  }

  lemma NotCompatible(b1: Branch, b2: Branch, i: int, j: int)
    requires b1.1 == PolyOfZ(i) && b2.1 == PolyOfZ(j) && i != j
    ensures !Compatible(b1, b2)
  {
    hide Deduce; hide PolyValue;
    var affs := Deduce(CtntsAnd(b1.0, b2.0)).1;
    var v: Valuation := _ => 0;
    ConstantValue(i, Override(affs, v));
    ConstantValue(j, Override(affs, v));
  }

  lemma OneExact(x: Atom)
    ensures var c := Conjunction(map[One(x) := Null]); Solved(c)
  {
    hide GetLinear; hide Factor; hide PolyValue; hide Hopeless;
    var one: Valuation := _ => 1;
    BinomialLinear(1, x, -1);
    BinomialValue(1, x, -1, one);
    GetLinearMeaning(One(x));
    HalfCanonical(x);
    assert PolyValue(One(x), one) == Factor(One(x)) * one(x) - 1;
  }

  /** The branch of the reduced disjunction that holds at v. */
  lemma CaseAt(x: Atom, v: Valuation, i: int) returns (b: Branch)
    requires v(x) == (if i == 5 then 1 else 0) && (i == 5 || i == 6)
    ensures b in Reduce(TwoBranches(One(x), PolyOfZ(5), PolyOfZ(6))) && b.1 == PolyOfZ(i)
  {
    hide Solved; hide ReduceBranches; hide Collapse; hide PolyValue; hide PolyOfZ; hide One;
    var p := One(x);
    var ir := TwoBranches(p, PolyOfZ(5), PolyOfZ(6));
    OneExact(x);
    NotNullSolved(p);
    assert AllSolved(ir);
    OneValue(x, v);
    ConstantValue(i, v);
    assert p in map[p := Null] && p in map[p := NotNull];
    assert ir[0] in ir && ir[1] in ir;
    assert Represents(ir, v, i);
    ReduceMeaning(ir, v, i);
    b :| b in Reduce(ir) && Holds(b.0, v);
    assert AllConstant(ir);
    ReducedConstant(ir);
    CollapsedConstant(ReduceBranches(ir));
    var k :| k != 0 && b.1 == PolyOfZ(k);
    ConstantValue(k, v);
  }

  lemma OneValue(x: Atom, v: Valuation)
    ensures PolyValue(One(x), v) == v(x) - 1
  {
    BinomialValue(1, x, -1, v);
  }

  lemma NotNullSolved(p: Poly)
    ensures Solved(Conjunction(map[p := NotNull]))
  {
    hide GetLinear;
  }
}
