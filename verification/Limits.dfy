/** Inputs on which the simplifications of asllib/StaticInterpreter.ml change the value of an expression. */
module Limits {
  import opened Prelude
  import opened Polynomial
  import opened Constraint
  import opened Expression
  import opened ToIr
  import opened Substitution
  import opened Equations
  import opened EquationSets
  import opened Normalize

  /** f * x + d */
  function Binomial(f: int, x: Atom, d: int): Poly {
    map[map[x := 1] := f, MONO_ONE := d]
  }

  lemma LinearMonoNotOne(x: Atom)
    ensures map[x := 1] != MONO_ONE
  {
    assert x in map[x := 1];
  }

  lemma LinearKinds(x: Atom)
    ensures KindOf(map[x := 1]) == KVar(x) && KindOf(MONO_ONE) == KConstant
    ensures map[x := 1] != MONO_ONE
  {
    LinearMonoNotOne(x);
    var m: Mono := map[x := 1];
    assert (map y | y in m && m[y] != 0 :: m[y]) == m;
    assert |m| == 1;
  }

  lemma {:induction false} LinearFoldConstant(d: int, o: Option<Atom>, c: int)
    ensures LinearFold(map[MONO_ONE := d], o, c) == Some((o, c - d))
  {
    LinearKinds("x");
    assert map[MONO_ONE := d] - {MONO_ONE} == map[];
    MinusSmaller(map[MONO_ONE := d], MONO_ONE);
  }

  lemma {:induction false} LinearFoldVar(f: int, x: Atom, c: int)
    ensures LinearFold(map[map[x := 1] := f], None, c) == Some((Some(x), c))
  {
    LinearKinds(x);
    assert map[map[x := 1] := f] - {map[x := 1]} == map[];
    MinusSmaller(map[map[x := 1] := f], map[x := 1]);
  }

  /** poly_get_linear reads f * x + d as x == -d, for every factor f. */
  lemma BinomialLinear(f: int, x: Atom, d: int)
    requires f != 0 && d != 0
    ensures GetLinear(Binomial(f, x, d)) == Equation(x, -d)
  {
    var p := Binomial(f, x, d);
    LinearKinds(x);
    assert DropZeros(p) == p;
    assert p - {MONO_ONE} == map[map[x := 1] := f];
    assert p - {map[x := 1]} == map[MONO_ONE := d];
    LinearFoldConstant(d, Some(x), 0);
    LinearFoldVar(f, x, -d);
  }

  lemma BinomialValue(f: int, x: Atom, d: int, v: Valuation)
    ensures PolyValue(Binomial(f, x, d), v) == f * v(x) + d
  {
    LinearKinds(x);
    LinearMonoValue(x, v);
    ConstantValue(d, v);
    assert Binomial(f, x, d) == PolyOfZ(d)[map[x := 1] := f];
    PolyPut(PolyOfZ(d), map[x := 1], f, v);
    assert PolyOfZ(d) - {map[x := 1]} == PolyOfZ(d);
  }

  /** A first branch whose reduced constraints hold stays, with its reduced polynomial. */
  lemma FirstBranchStays(b: Branch, ir: Ir, v: Valuation, n: int)
    requires Deduce(b.0).0.Conjunction? && Holds(Deduce(b.0).0, v)
    ensures Agrees(Reduce([b] + ir), v, n) ==> PolyValue(ReducePoly(Deduce(b.0).1, b.1), v) == n
  {
    hide Deduce; hide ReducePoly;
    var (c, affs) := Deduce(b.0);
    var b' := (c, ReducePoly(affs, b.1));
    assert ([b] + ir)[1..] == ir;
    GetTrivialSpec(c, v);
    AlwaysMeaning(b'.1, v);
    assert Holds(CTNTS_TRUE, v);
    assert b' in [b'] && (CTNTS_TRUE, b'.1) in Always(b'.1);
  }

  // ---------------------------------------------------------------- a dropped factor

  /** if 3 == x then x else -3 */
  function FactorExample(x: Atom): Expr {
    ECond(EBinop(EQ_OP, ELiteral(LInt(3)), EVar(x)), EVar(x), ELiteral(LInt(-3)))
  }

  function IntEnv(x: Atom): Env {
    Env(map[], map[x := OtherInt], map[])
  }

  function FactorIr(x: Atom): Ir {
    TwoBranches(Binomial(-1, x, 3), PolyOfVar(x), PolyOfZ(-3))
  }

  lemma AndTrue(c: Ctnts)
    ensures CtntsAnd(c, CTNTS_TRUE) == c
  {}

  lemma CompileParts(x: Atom)
    ensures DeclaredInOrder(IntEnv(x))
    ensures Compile(IntEnv(x), EVar(x)) == Some(Always(PolyOfVar(x)))
    ensures forall i :: Compile(IntEnv(x), ELiteral(LInt(i))) == Some(Always(PolyOfZ(i)))
  {}

  lemma CrossSingle(p: Poly, q: Poly)
    ensures CrossNum(Always(p), Always(q), AddPolys) == Always(AddPolys(p, q))
    ensures MapNum(PolyNeg, Always(p)) == Always(PolyNeg(p))
  {
    AndTrue(CTNTS_TRUE);
    assert Always(p)[1..] == [] && Always(q)[1..] == [];
    assert CrossOne(Always(p)[0], Always(q), AddPolys) == Always(AddPolys(p, q));
  }

  lemma CompileDifference(env: Env, e1: Expr, e2: Expr, p1: Poly, p2: Poly)
    requires DeclaredInOrder(env) && Compile(env, e1) == Some(Always(p1)) && Compile(env, e2) == Some(Always(p2))
    ensures Compile(env, EBinop(MINUS, e1, e2)) == Some(Always(AddPolys(p1, PolyNeg(p2))))
  {
    hide CrossNum; hide MapNum; hide AddPolys; hide PolyNeg;
    CrossSingle(p2, p2);
    CrossSingle(p1, PolyNeg(p2));
    assert Compile(env, EUnop(NEG, e2)) == Some(Always(PolyNeg(p2)));
    assert Compile(env, EBinop(PLUS, e1, EUnop(NEG, e2))) == Some(Always(AddPolys(p1, PolyNeg(p2))));
  }

  lemma CompileTest(env: Env, e1: Expr, e2: Expr, p: Poly)
    requires DeclaredInOrder(env) && Compile(env, EBinop(MINUS, e1, e2)) == Some(Always(p))
    ensures CompileCond(env, EBinop(EQ_OP, e1, e2)) ==
            Some(([Conjunction(map[p := Null])], [Conjunction(map[p := NotNull])]))
  {
    hide Compile;
    AndTrue(Conjunction(map[p := Null]));
    AndTrue(Conjunction(map[p := NotNull]));
    assert IrToCond(Null, Always(p)) == [Conjunction(map[p := Null])];
    assert IrToCond(NotNull, Always(p)) == [Conjunction(map[p := NotNull])];
  }

  /** The two branches of "if p == 0 then p1 else p2". */
  function TwoBranches(p: Poly, p1: Poly, p2: Poly): Ir {
    [(Conjunction(map[p := Null]), p1), (Conjunction(map[p := NotNull]), p2)]
  }

  lemma CompileIf(env: Env, e: Expr, p: Poly, p1: Poly, p2: Poly)
    requires DeclaredInOrder(env) && e.ECond?
    requires CompileCond(env, e.cond) == Some(([Conjunction(map[p := Null])], [Conjunction(map[p := NotNull])]))
    requires Compile(env, e.thn) == Some(Always(p1)) && Compile(env, e.els) == Some(Always(p2))
    ensures Compile(env, e) == Some(TwoBranches(p, p1, p2))
  {
    hide Restrict;
    RestrictSingle(Conjunction(map[p := Null]), p1);
    RestrictSingle(Conjunction(map[p := NotNull]), p2);
    var (cs, ncs) := CompileCond(env, e.cond).value;
    assert Restrict(cs, Always(p1)) + Restrict(ncs, Always(p2)) == TwoBranches(p, p1, p2);
  }

  lemma CompileFactorExample(x: Atom)
    ensures DeclaredInOrder(IntEnv(x)) && Compile(IntEnv(x), FactorExample(x)) == Some(FactorIr(x))
  {
    hide Compile; hide CompileCond;
    var e := FactorExample(x);
    LinearKinds(x);
    CompileParts(x);
    CompileDifference(IntEnv(x), ELiteral(LInt(3)), EVar(x), PolyOfZ(3), PolyOfVar(x));
    assert AddPolys(PolyOfZ(3), PolyNeg(PolyOfVar(x))) == Binomial(-1, x, 3);
    CompileTest(IntEnv(x), ELiteral(LInt(3)), EVar(x), Binomial(-1, x, 3));
    assert Compile(IntEnv(x), e.els) == Some(Always(PolyOfZ(-3)));
    CompileIf(IntEnv(x), e, Binomial(-1, x, 3), PolyOfVar(x), PolyOfZ(-3));
  }

  lemma RestrictSingle(c: Ctnts, p: Poly)
    ensures Restrict([c], Always(p)) == [(c, p)]
  {
    AndTrue(c);
    assert [c][1..] == [] && Always(p)[1..] == [];
    assert RestrictOne(c, Always(p)) == [(c, p)];
  }

  lemma VarNotBinomial(f: int, x: Atom, d: int)
    ensures DropZeros(PolyOfVar(x)) != Binomial(f, x, d)
  {
    LinearKinds(x);
    assert MONO_ONE in Binomial(f, x, d) && MONO_ONE !in DropZeros(PolyOfVar(x));
  }

  /** reduce turns "if 3 == x then x else -3" into something that is -3 where x is 3. */
  lemma ReduceDropsFactor(x: Atom, v: Valuation)
    requires v(x) == 3
    ensures DeclaredInOrder(IntEnv(x)) && Compile(IntEnv(x), FactorExample(x)).Some?
    ensures var ir := Compile(IntEnv(x), FactorExample(x)).value;
            Represents(ir, v, 3) && !Agrees(Reduce(ir), v, 3)
  {
    hide Reduce; hide Deduce; hide Compile; hide ReducePoly; hide PolyValue; hide DropZeros;
    var p := Binomial(-1, x, 3);
    var c := Conjunction(map[p := Null]);
    var ir := FactorIr(x);
    CompileFactorExample(x);
    BinomialValue(-1, x, 3, v);
    VarValue(x, v);
    assert p in map[p := Null] && p in map[p := NotNull];
    FirstMeaning(ir, v, 3);
    var affs := Deduce(c).1;
    OwnEquation(-1, x, 3, v);
    assert Affectation(x, -3, Some(p)) in affs;
    VarNotBinomial(-1, x, 3);
    OnlyEquation(affs, PolyOfVar(x), x, -3, v);
    FirstBranchStays(ir[0], ir[1..], v, 3);
    assert [ir[0]] + ir[1..] == ir;
  }

  /** The only equation read off f * x + d == 0 is x == -d, and the constraint itself is kept. */
  lemma OwnEquation(f: int, x: Atom, d: int, v: Valuation)
    requires f != 0 && d != 0 && f * v(x) + d == 0
    ensures var p := Binomial(f, x, d);
            var (c, affs) := Deduce(Conjunction(map[p := Null]));
            && c.Conjunction? && Holds(c, v)
            && forall a :: a in affs <==> a == Affectation(x, -d, Some(p))
  {
    hide PolyValue; hide GetLinear;
    var p := Binomial(f, x, d);
    var c := Conjunction(map[p := Null]);
    var affs := Deduce(c).1;
    BinomialLinear(f, x, d);
    BinomialValue(f, x, d, v);
    DeduceSpec(c, v);
    assert Deduced(c, affs);
    OthersSubset(affs, p);
    assert DropZeros(p) == p by { LinearKinds(x); }
    assert forall a :: a !in Others(affs, p);
    PolyValueExt(p, v, Override(Others(affs, p), v));
    ReduceCtntsSpec(affs, c, v);
  }

  /** When all affectations say x == c, reduce_poly makes the polynomial x the constant c. */
  lemma OnlyEquation(affs: seq<Affectation>, p: Poly, x: Atom, c: int, v: Valuation)
    requires p == PolyOfVar(x) && affs != []
    requires forall a :: a in affs ==> a.x == x && a.c == c && a.from != Some(DropZeros(p))
    ensures PolyValue(ReducePoly(affs, p), v) == c
  {
    var os := Others(affs, DropZeros(p));
    OthersSubset(affs, DropZeros(p));
    assert affs[0] in os;
    assert os[0] in os;
    ReducePolyValue(affs, p, v);
    VarValue(x, Override(os, v));
  }

  // ---------------------------------------------------------------- a zero factor

  /** x + 0 * y - 3, as add_polys leaves it for (x - 3 + y) - y. */
  function WithZero(x: Atom, y: Atom): Poly {
    Binomial(1, x, -3)[map[y := 1] := 0]
  }

  lemma WithZeroIsSum(x: Atom, y: Atom)
    requires x != y
    ensures AddPolys(Binomial(1, x, -3)[map[y := 1] := 1], PolyNeg(PolyOfVar(y))) == WithZero(x, y)
  {
    LinearKinds(x);
    LinearKinds(y);
    assert x in map[x := 1] && x !in map[y := 1];
    assert PolyNeg(PolyOfVar(y)) == map[map[y := 1] := -1];
  }

  lemma WithZeroReduced(x: Atom, y: Atom)
    requires x != y
    ensures DropZeros(WithZero(x, y)) == Binomial(1, x, -3) != WithZero(x, y)
  {
    LinearKinds(x);
    LinearKinds(y);
    assert x in map[x := 1] && x !in map[y := 1];
    assert map[y := 1] in WithZero(x, y) && map[y := 1] !in Binomial(1, x, -3);
  }

  /** Because of a zero factor the constraint is not recognised as the origin of its own equation. */
  lemma ReduceDropsConstraint(x: Atom, y: Atom, v: Valuation)
    requires x != y
    ensures var c := Conjunction(map[WithZero(x, y) := Null]);
            (Holds(c, v) <==> v(x) == 3) && Holds(Deduce(c).0, v)
  {
    hide Reduce; hide PolyValue; hide DropZeros;
    var p := WithZero(x, y);
    var c := Conjunction(map[p := Null]);
    WithZeroReduced(x, y);
    WithZeroValue(x, y, v);
    assert p in map[p := Null];
    BinomialLinear(1, x, -3);
    WithZeroLinear(x, y);
    GetLinearMeaning(p);
    DeduceSpec(c, (_: Atom) => 3);
    WithZeroValue(x, y, (_: Atom) => 3);
    var affs := Deduce(c).1;
    assert Deduced(c, affs) && ReadOff(c.signs, Affectation(x, 3, Some(p)));
    ReduceCtntsSpec(affs, c, v);
    var os := Others(affs, DropZeros(p));
    OthersSubset(affs, DropZeros(p));
    AssignedTo(os, Affectation(x, 3, Some(p)), v(x));
    WithZeroValue(x, y, Override(os, v));
  }

  lemma {:induction false} AssignedTo(affs: seq<Affectation>, a: Affectation, d: int)
    requires a in affs && forall b :: b in affs && b.x == a.x ==> b.c == a.c
    ensures Assigned(affs, a.x, d) == a.c
  {
    assert affs[0] in affs;
    if affs[0].x != a.x {
      AssignedTo(affs[1..], a, d);
    }
  }

  lemma WithZeroLinear(x: Atom, y: Atom)
    requires x != y
    ensures GetLinear(WithZero(x, y)) == Equation(x, 3)
  {
    WithZeroReduced(x, y);
    BinomialLinear(1, x, -3);
    DropZerosTwice(WithZero(x, y));
  }

  lemma DropZerosTwice(p: Poly)
    ensures DropZeros(DropZeros(p)) == DropZeros(p)
    ensures GetLinear(DropZeros(p)) == GetLinear(p)
  {}

  lemma WithZeroValue(x: Atom, y: Atom, v: Valuation)
    requires x != y
    ensures PolyValue(WithZero(x, y), v) == v(x) - 3
  {
    WithZeroReduced(x, y);
    DropZerosValue(WithZero(x, y), v);
    BinomialValue(1, x, -3, v);
  }

  lemma SingleEquation(p: Poly)
    requires GetLinear(p).Equation?
    ensures var c := Conjunction(map[p := Null]);
            && OnlyEquations(c) && OneEach(c) && p in c.signs
            && (SomeUnsolvable(c) <==> Unsolvable(p)) && (AllCanonical(c) <==> DropZeros(p) == p)
            && (AllExact(c) <==> Exact(p))
  {
    hide GetLinear; hide Factor; hide DropZeros;
    var c := Conjunction(map[p := Null]);
    assert p in c.signs && c.signs[p] == Null;
    assert forall q :: q in c.signs <==> q == p;
  }

  /** A single equation is kept exactly when it has no zero factor, or no integer solution. */
  lemma SingleEquationKeptIff(p: Poly)
    requires GetLinear(p).Equation?
    ensures Factor(p) != 0
            && ((forall v :: SameTruth(Conjunction(map[p := Null]), v)) <==>
                DropZeros(p) == p || GetLinear(p).c % Factor(p) != 0)
  {
    hide SameTruth; hide GetLinear; hide Factor; hide DropZeros; hide Kept;
    EquationRightIff(p);
    SingleEquation(p);
    DistinctKeptIff(Conjunction(map[p := Null]));
  }

  // ---------------------------------------------------------------- two equations for one atom

  /** x == 0 and 2 * x == 0 each make the other trivial, so the reduced constraints always hold. */
  lemma TwoEquationsVanish(x: Atom, v: Valuation)
    ensures var c := Conjunction(map[map[map[x := 1] := 1] := Null, map[map[x := 1] := 2] := Null]);
            HarmlessFactors(c) && (Holds(c, v) <==> v(x) == 0) && Holds(Deduce(c).0, v)
  {
    hide PolyValue; hide GetLinear; hide DropZeros; hide Factor; hide Deduce; hide HoldsReduced;
    var p, q := map[map[x := 1] := 1], map[map[x := 1] := 2];
    var c := Conjunction(map[p := Null, q := Null]);
    assert p[map[x := 1]] == 1 && q[map[x := 1]] == 2;
    assert p in c.signs && q in c.signs && c.signs.Keys == {p, q};
    MultipleOf(1, x, v);
    MultipleOf(2, x, v);
    MultipleOf(1, x, _ => 0);
    MultipleOf(2, x, _ => 0);
    DeduceSpec(c, _ => 0);
    var affs := Deduce(c).1;
    ReduceCtntsSpec(affs, c, v);
    assert ReadOff(c.signs, Affectation(x, 0, Some(p))) && ReadOff(c.signs, Affectation(x, 0, Some(q)));
    ReducedByOther(affs, 1, x, Affectation(x, 0, Some(q)), v);
    ReducedByOther(affs, 2, x, Affectation(x, 0, Some(p)), v);
  }

  lemma MultipleOf(f: int, x: Atom, v: Valuation)
    requires f != 0
    ensures var p := map[map[x := 1] := f];
            PolyValue(p, v) == f * v(x) && GetLinear(p) == Equation(x, 0) && DropZeros(p) == p
  {
    var p := map[map[x := 1] := f];
    assert DropZeros(p) == p;
    LinearFoldVar(f, x, 0);
    LinearMonoValue(x, v);
    PolyPut(map[], map[x := 1], f, v);
    assert PolyZero() - {map[x := 1]} == PolyZero();
    EmptyValues(v);
  }

  lemma ReducedByOther(affs: seq<Affectation>, f: int, x: Atom, a: Affectation, v: Valuation)
    requires f != 0 && a in affs && a.x == x && a.c == 0 && a.from != Some(map[map[x := 1] := f])
    requires forall b :: b in affs && b.x == x ==> b.c == 0
    ensures HoldsReduced(affs, map[map[x := 1] := f], Null, v)
  {
    hide PolyValue; hide GetLinear; hide DropZeros; hide Others; hide Assigned;
    var p := map[map[x := 1] := f];
    MultipleOf(f, x, v);
    var os := Others(affs, p);
    OthersSubset(affs, p);
    AssignedTo(os, a, v(x));
    MultipleOf(f, x, Override(os, v));
  }

  // ---------------------------------------------------------------- a comparison with zero

  /** if x == 0 then 5 else 7 */
  function ZeroExample(x: Atom): Expr {
    ECond(EBinop(EQ_OP, EVar(x), ELiteral(LInt(0))), ELiteral(LInt(5)), ELiteral(LInt(7)))
  }

  function ZeroIr(x: Atom): Ir {
    TwoBranches(Binomial(1, x, 0), PolyOfZ(5), PolyOfZ(7))
  }

  lemma CompileZeroExample(x: Atom)
    ensures DeclaredInOrder(IntEnv(x)) && Compile(IntEnv(x), ZeroExample(x)) == Some(ZeroIr(x))
  {
    hide Compile; hide CompileCond; hide AddPolys; hide PolyNeg; hide Binomial; hide PolyOfVar; hide PolyOfZ;
    var e := ZeroExample(x);
    CompileParts(x);
    ZeroPoly(x);
    CompileEquality(x, EVar(x), PolyOfVar(x), 0, Binomial(1, x, 0));
    assert Compile(IntEnv(x), e.thn) == Some(Always(PolyOfZ(5))) && Compile(IntEnv(x), e.els) == Some(Always(PolyOfZ(7)));
    CompileIf(IntEnv(x), e, Binomial(1, x, 0), PolyOfZ(5), PolyOfZ(7));
  }

  lemma ZeroPoly(x: Atom)
    ensures AddPolys(PolyOfVar(x), PolyNeg(PolyOfZ(0))) == Binomial(1, x, 0)
  {
    LinearKinds(x);
  }

  /** e1 == i as a condition in the environment of x. */
  lemma CompileEquality(x: Atom, e1: Expr, p1: Poly, i: int, p: Poly)
    requires DeclaredInOrder(IntEnv(x)) && Compile(IntEnv(x), e1) == Some(Always(p1))
    requires AddPolys(p1, PolyNeg(PolyOfZ(i))) == p
    ensures CompileCond(IntEnv(x), EBinop(EQ_OP, e1, ELiteral(LInt(i)))) ==
            Some(([Conjunction(map[p := Null])], [Conjunction(map[p := NotNull])]))
  {
    hide Compile; hide CompileCond; hide AddPolys; hide PolyNeg; hide PolyOfZ;
    CompileParts(x);
    CompileDifference(IntEnv(x), e1, ELiteral(LInt(i)), p1, PolyOfZ(i));
    CompileTest(IntEnv(x), e1, ELiteral(LInt(i)), p);
  }

  /** The literal 0 leaves a zero factor, so the constraint x + 0 == 0 is substituted by its own equation and vanishes. */
  lemma ZeroTestVanishes(x: Atom)
    ensures var (c, affs) := Deduce(Conjunction(map[Binomial(1, x, 0) := Null]));
            c == CTNTS_TRUE && forall a :: a in affs ==> a.x == x && a.c == 0
  {
    hide GetLinear;
    var p, q := Binomial(1, x, 0), map[map[x := 1] := 1];
    var c := Conjunction(map[p := Null]);
    LinearKinds(x);
    assert DropZeros(p) == q;
    DropZerosTwice(p);
    MultipleOf(1, x, _ => 0);
    var a := Affectation(x, 0, Some(p));
    DeduceFoldSpec(c.signs, []);
    assert p in c.signs && GetLinear(p) == Equation(x, 0);
    var affs := Deduce(c).1;
    assert ReadOff(c.signs, a);
    assert forall b :: b in affs <==> b == a;
    assert MONO_ONE in p && MONO_ONE !in q;
    var os := Others(affs, q);
    OthersSubset(affs, q);
    ReducedAway(os, x);
    SingleReduced(affs, p);
  }

  /** Some affectation is about x, and all of them give it the value c. */
  ghost predicate Fixes(os: seq<Affectation>, x: Atom, c: int) {
    (exists a :: a in os && a.x == x) && forall a :: a in os && a.x == x ==> a.c == c
  }

  /** Substituting c for x in f * x leaves a constant. */
  lemma {:induction false} SubstVar(os: seq<Affectation>, x: Atom, c: int, f: int)
    requires Fixes(os, x, c)
    ensures SubstMono(os, map[x := 1], f) == (MONO_ONE, f * c)
  {
    assert os[0] in os;
    if os[0].x == x {
      assert map[x := 1] - {x} == MONO_ONE;
      assert Power(c, 1) == c;
      SubstOne(os[1..], f * c);
    } else {
      assert forall a :: a in os ==> a == os[0] || a in os[1..];
      SubstVar(os[1..], x, c, f);
    }
  }

  /** Substituting zero for x in the polynomial x leaves nothing. */
  lemma ReducedAway(os: seq<Affectation>, x: Atom)
    requires Fixes(os, x, 0)
    ensures SubstFold(os, map[map[x := 1] := 1], map[]) == map[]
  {
    hide SubstMono; hide Fixes;
    SubstVar(os, x, 0, 1);
    SubstLast(os, map[x := 1], 1, map[]);
  }

  lemma {:induction false} SubstOne(os: seq<Affectation>, f: int)
    ensures SubstMono(os, MONO_ONE, f) == (MONO_ONE, f)
  {
    if os != [] {
      SubstOne(os[1..], f);
    }
  }

  /** A single constraint whose polynomial reduces to nothing is dropped. */
  lemma SingleReduced(affs: seq<Affectation>, p: Poly)
    requires ReducePoly(affs, p) == map[]
    ensures ReduceCtnts(affs, Conjunction(map[p := Null])) == CTNTS_TRUE
  {
    hide ReducePoly;
    var signs: map<Poly, Sign> := map[p := Null];
    assert signs - {p} == map[] && Pick(signs) == p;
    MinusSmaller(signs, p);
    assert IsTrivial(map[], Null) == Some(true);
    assert ReduceFold(affs, map[], map[]) == Some(map[]);
  }

  /** A constant is not changed by substitution. */
  lemma ConstantReduced(affs: seq<Affectation>, i: int)
    requires i != 0
    ensures ReducePoly(affs, PolyOfZ(i)) == PolyOfZ(i)
  {
    var p := PolyOfZ(i);
    assert DropZeros(p) == p;
    SubstOne(Others(affs, p), i);
    SubstLast(Others(affs, p), MONO_ONE, i, map[]);
  }

  /** A first branch that loses all its constraints is all that is left. */
  lemma ReduceToConstant(ir: Ir, i: int)
    requires ir != [] && i != 0 && ir[0].1 == PolyOfZ(i) && Deduce(ir[0].0).0 == CTNTS_TRUE
    ensures Reduce(ir) == Always(PolyOfZ(i))
  {
    hide Deduce; hide ReducePoly;
    ConstantReduced(Deduce(ir[0].0).1, i);
    assert TrivialFold(map[]) == Some(true);
  }

  lemma ReduceZeroExample(x: Atom)
    ensures Reduce(ZeroIr(x)) == Always(PolyOfZ(5))
  {
    hide Deduce; hide Reduce;
    ZeroTestVanishes(x);
    ReduceToConstant(ZeroIr(x), 5);
  }

  /** reduce turns "if x == 0 then 5 else 7" into 5, also where x is 1. */
  lemma ReduceDropsZeroTest(x: Atom, v: Valuation)
    requires v(x) == 1
    ensures DeclaredInOrder(IntEnv(x)) && Compile(IntEnv(x), ZeroExample(x)).Some?
    ensures var ir := Compile(IntEnv(x), ZeroExample(x)).value;
            Represents(ir, v, 7) && !Agrees(Reduce(ir), v, 7)
  {
    hide Reduce; hide Compile; hide PolyValue;
    var p := Binomial(1, x, 0);
    CompileZeroExample(x);
    ReduceZeroExample(x);
    BinomialValue(1, x, 0, v);
    ConstantValue(5, v);
    ConstantValue(7, v);
    var ir := ZeroIr(x);
    assert p in map[p := Null] && p in map[p := NotNull];
    assert !Holds(ir[0].0, v) && Holds(ir[1].0, v);
    assert ir[1] in ir;
    AlwaysMeaning(PolyOfZ(5), v);
    assert (CTNTS_TRUE, PolyOfZ(5)) in Always(PolyOfZ(5));
  }

  lemma ZeroExampleValue(x: Atom, v: Valuation)
    requires v(x) == 1
    ensures ValueIn(IntEnv(x), ZeroExample(x), v) == Some(LInt(7))
  {
    var look := LookupIn(IntEnv(x), v);
    var e := ZeroExample(x);
    assert look(x) == Some(LInt(1));
    assert Eval(e.cond.e1, look) == Some(LInt(1)) && Eval(e.cond.e2, look) == Some(LInt(0));
    assert BinopValues(EQ_OP, LInt(1), LInt(0)) == Some(LBool(false));
    assert Eval(e.cond, look) == Some(LBool(false));
    assert Eval(e.els, look) == Some(LInt(7));
  }

  /** equal_in_env finds "if x == 0 then 5 else 7" and 5 equal, although their values differ where x is 1. */
  lemma ComparisonDropsZeroTest(x: Atom, v: Valuation)
    requires v(x) == 1
    ensures DeclaredInOrder(IntEnv(x)) && Consistent(IntEnv(x), v)
    ensures EqualInEnv(IntEnv(x), ZeroExample(x), ELiteral(LInt(5)))
    ensures ValueIn(IntEnv(x), ZeroExample(x), v) == Some(LInt(7)) && ValueIn(IntEnv(x), ELiteral(LInt(5)), v) == Some(LInt(5))
  {
    hide Reduce; hide Compile; hide EqualBranches;
    CompileParts(x);
    CompileZeroExample(x);
    ReduceZeroExample(x);
    NothingDeduced();
    ReduceToConstant(Always(PolyOfZ(5)), 5);
    SameConstant(5);
    assert EqualModBranches(Always(PolyOfZ(5)), Always(PolyOfZ(5)));
    ZeroExampleValue(x, v);
  }

  lemma NothingDeduced()
    ensures Deduce(CTNTS_TRUE) == (CTNTS_TRUE, [])
  {}

  lemma SameConstant(i: int)
    ensures EqualBranches((CTNTS_TRUE, PolyOfZ(i)), (CTNTS_TRUE, PolyOfZ(i)))
  {
    hide Deduce; hide ReduceCtnts;
    NothingDeduced();
    AndTrue(CTNTS_TRUE);
    var p := AddPolys(PolyOfZ(i), PolyNeg(PolyOfZ(i)));
    assert DropZeros(p) == map[];
    SingleReduced([], p);
  }

  // ---------------------------------------------------------------- the shape of an equation

  /** A polynomial read as an equation, when no exponent is zero: f * x - c. */
  lemma LinearShape(p: Poly, allowed: Atom -> bool)
    requires GetLinear(p).Equation? && GetLinear(p).c != 0 && Proper(p, allowed)
    ensures DropZeros(p) == Binomial(Factor(p), GetLinear(p).x, -GetLinear(p).c)
  {
    hide LinearFold; hide PolyValue; hide Share; hide Factor; hide Proper;
    var q, x := DropZeros(p), GetLinear(p).x;
    LinearTerms(p, allowed, _ => 0);
    LinearTerms(p, allowed, _ => 1);
    LinearKinds(x);
    NoZeros(p);
    assert forall n :: n in q ==> n == map[x := 1] || n == MONO_ONE;
    EquationRightIff(p);
  }

  lemma NoZeros(p: Poly)
    ensures forall m :: m in DropZeros(p) ==> DropZeros(p)[m] != 0
  {}

  lemma LinearTerms(p: Poly, allowed: Atom -> bool, v: Valuation)
    requires GetLinear(p).Equation? && Proper(p, allowed)
    ensures var q, x := DropZeros(p), GetLinear(p).x;
            var m: Mono := map[x := 1];
            && (forall n :: n in q ==> n == m || n == MONO_ONE)
            && Factor(p) * v(x) - GetLinear(p).c
               == (if m in q then q[m] * v(x) else 0) + (if MONO_ONE in q then q[MONO_ONE] else 0)
  {
    hide LinearFold; hide PolyValue; hide Factor; hide MonoValue;
    var q, x := DropZeros(p), GetLinear(p).x;
    LinearFoldKeys(q, None, 0, allowed);
    LinearKinds(x);
    GetLinearMeaning(p);
    DropZerosValue(p, v);
    TwoTerms(q, map[x := 1], v);
    LinearMonoValue(x, v);
  }

  lemma TwoTerms(q: Poly, m: Mono, v: Valuation)
    requires m != MONO_ONE && forall n :: n in q ==> n == m || n == MONO_ONE
    ensures PolyValue(q, v) == Share(q, m, v) + (if MONO_ONE in q then q[MONO_ONE] else 0)
  {
    hide PolyValue; hide MonoValue;
    PolySplit(q, m, v);
    PolySplit(q - {m}, MONO_ONE, v);
    assert q - {m} - {MONO_ONE} == map[];
    EmptyValues(v);
  }

  /** Without zero exponents, only the atom and the constant monomial occur. */
  lemma {:induction false} LinearFoldKeys(rest: Poly, o: Option<Atom>, c: int, allowed: Atom -> bool)
    requires LinearFold(rest, o, c).Some? && Proper(rest, allowed)
    ensures var o' := LinearFold(rest, o, c).value.0;
            forall m :: m in rest ==> m == MONO_ONE || (o.None? && o'.Some? && m == map[o'.value := 1])
    decreases |rest|
  {
    if rest != map[] {
      hide KindOf; hide Proper;
      var m := Pick(rest);
      MinusSmaller(rest, m);
      ProperKind(rest, m, allowed);
      assert forall n :: n in rest ==> n == m || n in rest - {m};
      match KindOf(m)
      case KConstant => LinearFoldKeys(rest - {m}, o, c - rest[m], allowed);
      case KVar(x) =>
        LinearFoldKeys(rest - {m}, Some(x), c, allowed);
        LinearFoldAtom(rest - {m}, x, c);
    }
  }

  lemma {:induction false} LinearFoldAtom(rest: Poly, x: Atom, c: int)
    requires LinearFold(rest, Some(x), c).Some?
    ensures LinearFold(rest, Some(x), c).value.0 == Some(x)
    decreases |rest|
  {
    if rest != map[] {
      hide KindOf;
      var m := Pick(rest);
      MinusSmaller(rest, m);
      LinearFoldAtom(rest - {m}, x, c - rest[m]);
    }
  }

  lemma ProperKind(p: Poly, m: Mono, allowed: Atom -> bool)
    requires m in p && Proper(p, allowed)
    ensures Proper(p - {m}, allowed)
    ensures KindOf(m).KConstant? ==> m == MONO_ONE
    ensures KindOf(m).KVar? ==> m == map[KindOf(m).x := 1]
  {
    var m' := map x | x in m && m[x] != 0 :: m[x];
    assert m' == m;
    if KindOf(m).KVar? {
      var x := Pick(m);
      MinusSmaller(m, x);
      assert m - {x} == map[];
    }
  }

  /** A constraint that becomes a wrong constant makes the branch Bottom. */
  lemma BecomesBottom(c: Ctnts, p: Poly)
    requires c.Conjunction? && p in c.signs && IsTrivial(ReducePoly(Deduce(c).1, p), c.signs[p]).None?
    ensures Deduce(c).0 == Bottom
  {
    hide ReducePoly; hide IsTrivial; hide DeduceFold;
    if DeduceFold(c.signs, []).Some? {
      FoldFails(Deduce(c).1, c.signs, map[], p);
    }
  }

  lemma {:induction false} FoldFails(affs: seq<Affectation>, rest: map<Poly, Sign>, acc: map<Poly, Sign>, p: Poly)
    requires p in rest && IsTrivial(ReducePoly(affs, p), rest[p]).None?
    ensures ReduceFold(affs, rest, acc).None?
    decreases |rest|
  {
    hide ReducePoly; hide IsTrivial; hide SignAnd;
    var q := Pick(rest);
    MinusSmaller(rest, q);
    if q != p && IsTrivial(ReducePoly(affs, q), rest[q]).Some? {
      var r := ReducePoly(affs, q);
      if IsTrivial(r, rest[q]).value {
        FoldFails(affs, rest - {q}, acc, p);
      } else if r !in acc {
        FoldFails(affs, rest - {q}, acc[r := rest[q]], p);
      } else if SignAnd(rest[q], acc[r]).Some? {
        FoldFails(affs, rest - {q}, acc[r := SignAnd(rest[q], acc[r]).value], p);
      }
    }
  }

  // ---------------------------------------------------------------- comparing under an equation

  /** A positive answer on two branches is right wherever both hold. */
  ghost predicate RightAnswer(b1: Branch, b2: Branch) {
    EqualBranches(b1, b2) ==>
      forall v :: Holds(b1.0, v) && Holds(b2.0, v) ==> PolyValue(b1.1, v) == PolyValue(b2.1, v)
  }

  ghost predicate AllRight(c: Ctnts) {
    forall p1, p2 :: RightAnswer((c, p1), (c, p2))
  }

  /** An equation with a zero factor, and whose factor matters: substituting its value into itself is a contradiction. */
  ghost predicate SelfRefuting(c: Ctnts)
    requires OnlyEquations(c)
  {
    exists p :: p in c.signs && DropZeros(p) != p && !Exact(p)
  }

  /**
   * Under equations for distinct atoms, all positive answers are right exactly when one of the equations has no integer
   * solution, or all have factor one or value zero, or a zero factor lets one refute itself.
   */
  lemma CompareRightIff(c: Ctnts, allowed: Atom -> bool)
    requires OnlyEquations(c) && OneEach(c) && ProperCtnts(c, allowed)
    ensures AllRight(c) <==> SomeUnsolvable(c) || AllExact(c) || SelfRefuting(c)
  {
    hide GetLinear; hide Factor; hide RightAnswer; hide DropZeros; hide SelfRefuting; hide SomeUnsolvable; hide OneEach;
    hide Exact; hide ProperCtnts;
    if SomeUnsolvable(c) || AllExact(c) || SelfRefuting(c) {
      forall p1, p2
        ensures RightAnswer((c, p1), (c, p2))
      {
        if SelfRefuting(c) {
          RefutedCompare(c, p1, p2, allowed);
        } else {
          HarmlessCompare(c, p1, p2);
        }
      }
    } else {
      var p :| p in c.signs && !Exact(p);
      HarmfulCompare(c, p);
    }
  }

  lemma AndSame(c: Ctnts)
    requires OnlyEquations(c)
    ensures CtntsAnd(c, c) == c
  {
    hide GetLinear;
    assert forall p :: p in c.signs ==> IsEquation(c.signs, p);
  }

  lemma HarmlessCompare(c: Ctnts, p1: Poly, p2: Poly)
    requires OnlyEquations(c) && (SomeUnsolvable(c) || AllExact(c))
    ensures RightAnswer((c, p1), (c, p2))
  {
    hide GetLinear; hide Exact; hide Unsolvable; hide EqualBranches; hide CtntsAnd; hide Holds; hide PolyValue;
    AndSame(c);
    HopelessIff(c);
    assert HarmlessFactors(c);
    if EqualBranches((c, p1), (c, p2)) {
      forall v | Holds(c, v)
        ensures PolyValue(p1, v) == PolyValue(p2, v)
      {
        EqualBranchesMeaning((c, p1), (c, p2), v);
      }
    }
  }

  /** Deduction drops the branches, and then the answer is not positive. */
  lemma RefutedCompare(c: Ctnts, p1: Poly, p2: Poly, allowed: Atom -> bool)
    requires OnlyEquations(c) && OneEach(c) && ProperCtnts(c, allowed) && SelfRefuting(c)
    ensures RightAnswer((c, p1), (c, p2))
  {
    hide GetLinear; hide Deduce; hide CtntsAnd; hide ReduceCtnts; hide Holds; hide PolyValue; hide Proper; hide Exact;
    hide DropZeros; hide OneEach;
    AndSame(c);
    var p :| p in c.signs && DropZeros(p) != p && !Exact(p);
    SelfRefuted(c, p, allowed);
  }

  /** The affectations used on p, when no other equation is about its atom. */
  lemma OwnValue(c: Ctnts, p: Poly)
    requires OnlyEquations(c) && OneEach(c) && p in c.signs && DropZeros(p) != p
    ensures Fixes(Others(Deduce(c).1, DropZeros(p)), GetLinear(p).x, GetLinear(p).c)
  {
    hide GetLinear; hide Deduce; hide DropZeros;
    var os := Others(Deduce(c).1, DropZeros(p));
    var own := Affectation(GetLinear(p).x, GetLinear(p).c, Some(p));
    OthersOf(c, p, own);
    assert IsEquation(c.signs, p) && own in os;
    forall a | a in os && a.x == own.x
      ensures a.c == own.c
    {
      OthersOf(c, p, a);
      assert IsEquation(c.signs, a.from.value);
      assert a.from.value == p || !SameAtom(p, a.from.value);
    }
  }

  lemma ConstantTrivial(i: int, s: Sign)
    ensures IsTrivial(PolyOfZ(i), s) == if Satisfies(i, s) then Some(true) else None
  {
    MinusSmaller(PolyOfZ(i), MONO_ONE);
    assert PolyOfZ(i) - {MONO_ONE} == map[];
  }

  lemma EquationAt(c: Ctnts, p: Poly)
    requires OnlyEquations(c) && p in c.signs
    ensures IsEquation(c.signs, p) && c.signs[p] == Null
  {
    hide GetLinear;
    assert IsEquation(c.signs, p);
  }

  lemma SelfRefuted(c: Ctnts, p: Poly, allowed: Atom -> bool)
    requires OnlyEquations(c) && OneEach(c) && p in c.signs && DropZeros(p) != p && !Exact(p) && Proper(p, allowed)
    ensures Deduce(c).0 == Bottom
  {
    hide GetLinear; hide Deduce; hide DropZeros; hide Factor; hide OneEach; hide Proper; hide SubstFold; hide Fixes; hide Others;
    hide IsTrivial; hide PolyOfZ; hide Binomial;
    var x, k, f := GetLinear(p).x, GetLinear(p).c, Factor(p);
    EquationAt(c, p);
    OwnValue(c, p);
    EquationRightIff(p);
    LinearShape(p, allowed);
    NonZeroProduct(f, k);
    NonZeroProduct(f - 1, k);
    assert (f - 1) * k == f * k - k;
    BinomialConstant(Others(Deduce(c).1, DropZeros(p)), f, x, -k, k);
    ConstantTrivial(f * k - k, Null);
    BecomesBottom(c, p);
  }

  lemma HarmfulCompare(c: Ctnts, p: Poly)
    requires OnlyEquations(c) && OneEach(c) && !SomeUnsolvable(c) && !SelfRefuting(c) && p in c.signs && !Exact(p)
    ensures !RightAnswer((c, PolyOfVar(GetLinear(p).x)), (c, PolyOfZ(GetLinear(p).c)))
  {
    hide GetLinear; hide Factor; hide EqualBranches; hide PolyValue; hide DropZeros; hide Holds; hide OneEach; hide SelfRefuting;
    hide SomeUnsolvable;
    var x, k, f := GetLinear(p).x, GetLinear(p).c, Factor(p);
    var w := CommonSolution(c);
    TruthAt(c, w);
    assert IsEquation(c.signs, p) && Satisfied(p, w(x));
    EquationRightIff(p);
    NotASolution(f, w(x), k);
    VarValue(x, w);
    ConstantValue(k, w);
    NotDropped(c, w);
    HarmfulEqual(c, p, w);
  }

  /** Without self-refuting equations, deduction keeps the common solutions. */
  lemma NotDropped(c: Ctnts, w: Valuation)
    requires OnlyEquations(c) && OneEach(c) && !SelfRefuting(c) && Holds(c, w)
    ensures Holds(Deduce(c).0, w)
  {
    hide GetLinear; hide Factor; hide DropZeros; hide Holds; hide Deduce; hide Reduced; hide Decoupled;
    TruthAt(c, w);
    ReducedAt(c, w);
    forall p | p in c.signs
      ensures Satisfied(p, Reduced(Deduce(c).1, p, w))
    {
      if Decoupled(c, p) {
        DecoupledSelf(c, p);
        OwnReduced(c, p, w);
        assert Exact(p);
      } else {
        CoupledSame(c, p, w);
      }
    }
  }

  lemma DecoupledSelf(c: Ctnts, p: Poly)
    requires OnlyEquations(c) && OneEach(c) && p in c.signs && Decoupled(c, p)
    ensures DropZeros(p) != p
  {
    hide GetLinear; hide DropZeros;
    var q :| q in c.signs && SameAtom(p, q) && q != DropZeros(p);
  }

  lemma OwnReduced(c: Ctnts, p: Poly, w: Valuation)
    requires OnlyEquations(c) && OneEach(c) && p in c.signs && DropZeros(p) != p
    ensures Reduced(Deduce(c).1, p, w) == GetLinear(p).c
  {
    hide GetLinear; hide Deduce; hide DropZeros; hide Others; hide OneEach;
    OwnValue(c, p);
    var os := Others(Deduce(c).1, DropZeros(p));
    var a :| a in os && a.x == GetLinear(p).x;
    AssignedTo(os, a, w(GetLinear(p).x));
  }

  lemma HarmfulEqual(c: Ctnts, p: Poly, w: Valuation)
    requires OnlyEquations(c) && OneEach(c) && p in c.signs && GetLinear(p).c != 0 && Holds(Deduce(c).0, w)
    ensures EqualBranches((c, PolyOfVar(GetLinear(p).x)), (c, PolyOfZ(GetLinear(p).c)))
  {
    hide GetLinear; hide Factor; hide PolyValue; hide DropZeros; hide Deduce; hide ReduceCtnts; hide CtntsAnd; hide Fixes;
    var x, k := GetLinear(p).x, GetLinear(p).c;
    assert Deduce(c).0.Conjunction?;
    AndSame(c);
    ForgottenValue(c, p);
    DifferenceVanishes(Forget(Deduce(c).1), x, k);
    SingleReduced(Forget(Deduce(c).1), AddPolys(PolyOfVar(x), PolyNeg(PolyOfZ(k))));
  }

  lemma ForgottenValue(c: Ctnts, p: Poly)
    requires OnlyEquations(c) && OneEach(c) && p in c.signs
    ensures Fixes(Forget(Deduce(c).1), GetLinear(p).x, GetLinear(p).c)
    ensures forall a :: a in Forget(Deduce(c).1) ==> a.from.None?
  {
    hide GetLinear; hide Deduce;
    Deduction(c);
    var affs := Deduce(c).1;
    var fs, own := Forget(affs), Affectation(GetLinear(p).x, GetLinear(p).c, Some(p));
    assert IsEquation(c.signs, p) && ReadOff(c.signs, own);
    var j :| 0 <= j < |affs| && affs[j] == own;
    assert fs[j] in fs;
    forall a | a in fs
      ensures a.from.None? && (a.x == own.x ==> a.c == own.c)
    {
      var i :| 0 <= i < |fs| && fs[i] == a;
      assert affs[i] in affs && ReadOff(c.signs, affs[i]);
      assert affs[i].from.value == p || !SameAtom(p, affs[i].from.value);
    }
  }

  /** Substituting c for x in x - c leaves nothing. */
  lemma DifferenceVanishes(fs: seq<Affectation>, x: Atom, c: int)
    requires Fixes(fs, x, c) && c != 0 && forall a :: a in fs ==> a.from.None?
    ensures ReducePoly(fs, AddPolys(PolyOfVar(x), PolyNeg(PolyOfZ(c)))) == map[]
  {
    hide SubstFold; hide SubstMono; hide Others;
    var p := AddPolys(PolyOfVar(x), PolyNeg(PolyOfZ(c)));
    LinearKinds(x);
    assert p == Binomial(1, x, -c) && DropZeros(p) == p;
    OthersSubset(fs, p);
    var os := Others(fs, p);
    var a :| a in fs && a.x == x;
    assert a in os;
    BinomialVanishes(os, x, c);
  }

  lemma BinomialVanishes(os: seq<Affectation>, x: Atom, c: int)
    requires Fixes(os, x, c) && c != 0
    ensures SubstFold(os, Binomial(1, x, -c), map[]) == map[]
  {
    hide SubstFold; hide SubstMono; hide Fixes;
    SubstVar(os, x, c, 1);
    BinomialFold(os, 1, x, -c);
    assert map[MONO_ONE := -c] - {MONO_ONE} == map[] && map[MONO_ONE := c] - {MONO_ONE} == map[];
  }

  /** Substituting c for x in f * x + d leaves a constant. */
  lemma BinomialConstant(os: seq<Affectation>, f: int, x: Atom, d: int, c: int)
    requires Fixes(os, x, c) && f * c != 0 && d != 0 && f * c + d != 0
    ensures SubstFold(os, Binomial(f, x, d), map[]) == PolyOfZ(f * c + d)
  {
    hide SubstFold; hide SubstMono; hide Fixes;
    SubstVar(os, x, c, f);
    BinomialFold(os, f, x, d);
  }

  /** The two orders in which the fold of subst_poly can visit f * x + d. */
  lemma BinomialFold(os: seq<Affectation>, f: int, x: Atom, d: int)
    requires d != 0 && SubstMono(os, map[x := 1], f).1 != 0
    ensures var (m, g) := SubstMono(os, map[x := 1], f);
            var r := SubstFold(os, Binomial(f, x, d), map[]);
            r == AddMono(MONO_ONE, d, map[m := g]) || r == AddMono(m, g, map[MONO_ONE := d])
  {
    hide SubstFold; hide SubstMono; hide AddMono;
    var p := Binomial(f, x, d);
    var m: Mono := map[x := 1];
    var (m', g) := SubstMono(os, m, f);
    LinearKinds(x);
    SubstOne(os, d);
    assert m in p;
    SubstStep(os, p, map[]);
    assert p - {MONO_ONE} == map[m := f] && p - {m} == map[MONO_ONE := d];
    AddFirst(m', g);
    AddFirst(MONO_ONE, d);
    SubstLast(os, m, f, map[MONO_ONE := d]);
    SubstLast(os, MONO_ONE, d, map[m' := g]);
  }

  lemma AddFirst(m: Mono, f: int)
    ensures AddMono(m, f, map[]) == map[m := f]
  {}

  lemma SubstStep(os: seq<Affectation>, rest: Poly, acc: Poly)
    requires rest != map[]
    ensures var m := Pick(rest);
            var (m', f') := SubstMono(os, m, rest[m]);
            SubstFold(os, rest, acc) == SubstFold(os, rest - {m}, if f' == 0 then acc else AddMono(m', f', acc))
  {}

  /** The last step of the fold of subst_poly. */
  lemma SubstLast(os: seq<Affectation>, m: Mono, f: int, acc: Poly)
    ensures var (m', f') := SubstMono(os, m, f);
            SubstFold(os, map[m := f], acc) == if f' == 0 then acc else AddMono(m', f', acc)
  {
    var rest: Poly := map[m := f];
    assert rest - {m} == map[];
    MinusSmaller(rest, m);
  }
}
