/** An expression on which normalize fails (asllib/StaticInterpreter.ml, of_ir). */
module Unprintable {
  import opened Prelude
  import opened Polynomial
  import opened Constraint
  import opened Expression
  import opened ToIr
  import opened Substitution
  import opened Equations
  import opened Normalize
  import opened OfIr
  import opened Nonvanishing
  import opened Branches
  import opened Limits

  /** if x + x == 1 then (if x == 1 then 5 else 6) else 7 */
  function HalfExample(x: Atom): Expr {
    ECond(EBinop(EQ_OP, EBinop(PLUS, EVar(x), EVar(x)), ELiteral(LInt(1))), HalfInner(x), ELiteral(LInt(7)))
  }

  function HalfInner(x: Atom): Expr {
    ECond(EBinop(EQ_OP, EVar(x), ELiteral(LInt(1))), ELiteral(LInt(5)), ELiteral(LInt(6)))
  }

  /** 2 * x - 1 and x - 1 */
  function Half(x: Atom): Poly { Binomial(2, x, -1) }

  function One(x: Atom): Poly { Binomial(1, x, -1) }

  function HalfCtnts(x: Atom, s: Sign): Ctnts {
    Conjunction(map[Half(x) := Null, One(x) := s])
  }

  function HalfIr(x: Atom): Ir {
    [(HalfCtnts(x, Null), PolyOfZ(5)), (HalfCtnts(x, NotNull), PolyOfZ(6)),
     (Conjunction(map[Half(x) := NotNull]), PolyOfZ(7))]
  }

  lemma HalfNotOne(x: Atom)
    ensures Half(x) != One(x)
  {
    LinearKinds(x);
    assert Half(x)[map[x := 1]] == 2 && One(x)[map[x := 1]] == 1;
  }

  lemma CompileDouble(x: Atom)
    ensures DeclaredInOrder(IntEnv(x))
    ensures Compile(IntEnv(x), EBinop(PLUS, EVar(x), EVar(x))) == Some(Always(AddPolys(PolyOfVar(x), PolyOfVar(x))))
  {
    hide CompileCond; hide CrossNum; hide AddPolys; hide PolyOfVar;
    CompileParts(x);
    CrossSingle(PolyOfVar(x), PolyOfVar(x));
  }

  lemma HalfPolys(x: Atom)
    ensures AddPolys(AddPolys(PolyOfVar(x), PolyOfVar(x)), PolyNeg(PolyOfZ(1))) == Half(x)
    ensures AddPolys(PolyOfVar(x), PolyNeg(PolyOfZ(1))) == One(x)
  {
    LinearKinds(x);
    var m: Mono := map[x := 1];
    assert PolyOfVar(x) == map[m := 1] && PolyNeg(PolyOfZ(1)) == map[MONO_ONE := -1];
    assert AddPolys(map[m := 1], map[m := 1]) == map[m := 2];
    AddConstant(m, 1);
    AddConstant(m, 2);
  }

  lemma AddConstant(m: Mono, f: int)
    requires m != MONO_ONE
    ensures AddPolys(map[m := f], map[MONO_ONE := -1]) == map[m := f, MONO_ONE := -1]
  {}

  lemma CompileHalfTests(x: Atom)
    ensures DeclaredInOrder(IntEnv(x))
    ensures CompileCond(IntEnv(x), HalfExample(x).cond) ==
            Some(([Conjunction(map[Half(x) := Null])], [Conjunction(map[Half(x) := NotNull])]))
    ensures Compile(IntEnv(x), HalfInner(x)) == Some(TwoBranches(One(x), PolyOfZ(5), PolyOfZ(6)))
  {
    hide CompileCond; hide Compile; hide AddPolys; hide PolyNeg; hide PolyOfVar; hide Half; hide One;
    CompileParts(x);
    CompileDouble(x);
    HalfPolys(x);
    CompileEquality(x, EBinop(PLUS, EVar(x), EVar(x)), AddPolys(PolyOfVar(x), PolyOfVar(x)), 1, Half(x));
    CompileEquality(x, EVar(x), PolyOfVar(x), 1, One(x));
    var i := HalfInner(x);
    assert Compile(IntEnv(x), i.thn) == Some(Always(PolyOfZ(5))) && Compile(IntEnv(x), i.els) == Some(Always(PolyOfZ(6)));
    CompileIf(IntEnv(x), i, One(x), PolyOfZ(5), PolyOfZ(6));
  }

  lemma CompileHalfExample(x: Atom)
    ensures DeclaredInOrder(IntEnv(x)) && Compile(IntEnv(x), HalfExample(x)) == Some(HalfIr(x))
  {
    hide CompileCond; hide Restrict;
    var e := HalfExample(x);
    CompileHalfTests(x);
    CompileParts(x);
    var (c, n) := (Conjunction(map[Half(x) := Null]), Conjunction(map[Half(x) := NotNull]));
    HalfRestrict(x, c);
    RestrictSingle(n, PolyOfZ(7));
    assert Compile(IntEnv(x), e.els) == Some(Always(PolyOfZ(7)));
    var inner := TwoBranches(One(x), PolyOfZ(5), PolyOfZ(6));
    assert Restrict([c], inner) + Restrict([n], Always(PolyOfZ(7))) == HalfIr(x);
  }

  lemma HalfRestrict(x: Atom, c: Ctnts)
    requires c == Conjunction(map[Half(x) := Null])
    ensures Restrict([c], TwoBranches(One(x), PolyOfZ(5), PolyOfZ(6))) ==
            [(HalfCtnts(x, Null), PolyOfZ(5)), (HalfCtnts(x, NotNull), PolyOfZ(6))]
  {
    hide Binomial; hide CtntsAnd;
    var ir := TwoBranches(One(x), PolyOfZ(5), PolyOfZ(6));
    HalfAnd(x, Null);
    HalfAnd(x, NotNull);
    var last: Ir := [ir[1]];
    assert [c][1..] == [] && ir[1..] == last && last[1..] == [];
    assert RestrictOne(c, ir[1..]) == [(HalfCtnts(x, NotNull), PolyOfZ(6))];
  }

  lemma HalfAnd(x: Atom, s: Sign)
    ensures CtntsAnd(Conjunction(map[Half(x) := Null]), Conjunction(map[One(x) := s])) == HalfCtnts(x, s)
  {
    hide Half; hide One;
    HalfNotOne(x);
    AndTwo(Half(x), Null, One(x), s);
  }

  lemma AndTwo(p: Poly, s: Sign, q: Poly, t: Sign)
    requires p != q
    ensures CtntsAnd(Conjunction(map[p := s]), Conjunction(map[q := t])) == Conjunction(map[p := s, q := t])
  {
    assert p !in map[q := t] && q !in map[p := s];
  }

  /** What is read off the branches of x + x == 1: that x is 1. */
  lemma HalfDeduced(x: Atom, s: Sign)
    requires s == Null || s == NotNull
    ensures var affs := Deduce(HalfCtnts(x, s)).1;
            && (forall a :: a in affs ==> a.x == x && a.c == 1)
            && Affectation(x, 1, Some(Half(x))) in affs
            && (s == Null ==> Affectation(x, 1, Some(One(x))) in affs)
  {
    hide GetLinear; hide ReduceCtnts;
    HalfNotOne(x);
    BinomialLinear(2, x, -1);
    BinomialLinear(1, x, -1);
    hide Half; hide One;
    var c := HalfCtnts(x, s);
    assert c.signs.Keys == {Half(x), One(x)};
    DeduceFoldSpec(c.signs, []);
    assert ReadOff(c.signs, Affectation(x, 1, Some(Half(x))));
    assert s == Null ==> ReadOff(c.signs, Affectation(x, 1, Some(One(x))));
  }

  lemma HalfOthers(x: Atom, s: Sign, p: Poly, q: Poly)
    requires s == Null || s == NotNull
    requires p != q && Affectation(x, 1, Some(q)) in Deduce(HalfCtnts(x, s)).1
    ensures Fixes(Others(Deduce(HalfCtnts(x, s)).1, p), x, 1)
  {
    hide Deduce; hide Others; hide HalfCtnts;
    HalfDeduced(x, s);
    OthersSubset(Deduce(HalfCtnts(x, s)).1, p);
    assert Affectation(x, 1, Some(q)) in Others(Deduce(HalfCtnts(x, s)).1, p);
  }

  lemma HalfReduced(x: Atom, s: Sign)
    requires s == Null || s == NotNull
    ensures var affs := Deduce(HalfCtnts(x, s)).1;
            if s == Null then ReducePoly(affs, Half(x)) == PolyOfZ(1) else ReducePoly(affs, One(x)) == map[]
  {
    hide Deduce; hide SubstFold; hide Fixes; hide DropZeros; hide HalfCtnts; hide Others; hide PolyOfZ; hide Binomial;
    var affs := Deduce(HalfCtnts(x, s)).1;
    HalfDeduced(x, s);
    HalfNotOne(x);
    HalfCanonical(x);
    if s == Null {
      HalfOthers(x, s, Half(x), One(x));
      BinomialConstant(Others(affs, Half(x)), 2, x, -1, 1);
    } else {
      HalfOthers(x, s, One(x), Half(x));
      BinomialVanishes(Others(affs, One(x)), x, 1);
    }
  }

  lemma HalfCanonical(x: Atom)
    ensures DropZeros(Half(x)) == Half(x) && DropZeros(One(x)) == One(x)
  {
    LinearKinds(x);
  }

  lemma HalfBottom(x: Atom, s: Sign)
    requires s == Null || s == NotNull
    ensures Deduce(HalfCtnts(x, s)).0 == Bottom
  {
    hide Deduce; hide ReducePoly; hide Half; hide One;
    HalfReduced(x, s);
    HalfNotOne(x);
    ConstantTrivial(1, Null);
    BecomesBottom(HalfCtnts(x, s), if s == Null then Half(x) else One(x));
  }

  lemma HalfStays(x: Atom)
    ensures var (c, affs) := Deduce(Conjunction(map[Half(x) := NotNull]));
            c.Conjunction? && c != CTNTS_TRUE
  {
    hide SubstFold;
    LinearKinds(x);
    BinomialFold([], 2, x, -1);
    assert DropZeros(Half(x)) == Half(x);
    var q := ReducePoly([], Half(x));
    assert MONO_ONE in q && map[x := 1] in q;
    NotNullStays(Half(x));
    assert q in map[q := NotNull];
  }

  /** A lone constraint that is no equation and not constant is kept. */
  lemma NotNullStays(p: Poly)
    requires NonConstant(ReducePoly([], p))
    ensures Deduce(Conjunction(map[p := NotNull])) == (Conjunction(map[ReducePoly([], p) := NotNull]), [])
  {
    hide ReducePoly; hide NonConstant; hide GetConstant;
    var q, signs: map<Poly, Sign> := ReducePoly([], p), map[p := NotNull];
    MinusSmaller(signs, p);
    assert signs - {p} == map[] && Pick(signs) == p;
    assert DeduceFold(signs, []) == DeduceFold(map[], []) == Some([]);
    ConstantIff(q);
    assert ReduceFold([], signs, map[]) == ReduceFold([], map[], map[q := NotNull]);
  }

  lemma HalfHopeless(x: Atom, s: Sign)
    ensures Hopeless(HalfCtnts(x, s).signs)
  {
    hide GetLinear; hide Factor; hide PolyValue;
    var p, one: Valuation := Half(x), _ => 1;
    HalfNotOne(x);
    BinomialLinear(2, x, -1);
    BinomialValue(2, x, -1, one);
    GetLinearMeaning(p);
    assert PolyValue(p, one) == Factor(p) * one(x) - 1;
    assert IsEquation(HalfCtnts(x, s).signs, p) && Unsolvable(p);
  }

  /**
   * normalize fails on "if x + x == 1 then (if x == 1 then 5 else 6) else 7", although reduction is right on it: the
   * two branches without solution are dropped, and of_ir asserts that the remaining one has no constraint.
   */
  lemma NormalizeFails(x: Atom, v: Valuation)
    ensures var env, e := IntEnv(x), HalfExample(x);
            && DeclaredInOrder(env) && ValueIn(env, e, v) == Some(LInt(7))
            && Compile(env, e).Some? && AllSolved(Compile(env, e).value) && NormalForm(env, e).None?
  {
    hide Compile; hide Reduce; hide Print; hide Deduce; hide ReducePoly; hide HalfCtnts; hide Hopeless;
    var ir := HalfIr(x);
    CompileHalfExample(x);
    HalfBottom(x, Null);
    HalfBottom(x, NotNull);
    HalfStays(x);
    HalfHopeless(x, Null);
    HalfHopeless(x, NotNull);
    assert Solved(ir[2].0);
    assert AllSolved(ir);
    var last: Ir := [ir[2]];
    assert ir[1..][1..] == last && last[1..] == [];
    var (c, affs) := Deduce(ir[2].0);
    assert ReduceBranches(last) == [(c, ReducePoly(affs, ir[2].1))] + ReduceBranches([]);
    var rb := ReduceBranches(ir);
    assert rb == ReduceBranches(ir[1..]) == ReduceBranches(last);
    assert |rb| == 1 && rb[0].0 != CTNTS_TRUE;
    FailsIff(ir);
    HalfValue(x, v);
  }

  lemma HalfValue(x: Atom, v: Valuation)
    ensures DeclaredInOrder(IntEnv(x)) && ValueIn(IntEnv(x), HalfExample(x), v) == Some(LInt(7))
  {
    hide Compile; hide PolyValue; hide Eval; hide HalfCtnts;
    var ir := HalfIr(x);
    CompileHalfExample(x);
    CompileMeaning(IntEnv(x), HalfExample(x), v);
    var n :| ValueIn(IntEnv(x), HalfExample(x), v) == Some(LInt(n)) && Represents(ir, v, n);
    BinomialValue(2, x, -1, v);
    ConstantValue(7, v);
    assert Half(x) in map[Half(x) := NotNull];
    assert Holds(ir[2].0, v) && ir[2] in ir;
  }
}
