/**
 * When of_ir does not fail: at least two branches are left, or a branch without constraints
 * (asllib/StaticInterpreter.ml, Normalize).
 *
 * A disjunction compiled from an expression leaves no gap, and this is still so when the numbers divisible by some d
 * count as zero. A lone branch with a constraint would leave one.
 */
module Branches {
  import opened Prelude
  import opened Polynomial
  import opened Constraint
  import opened Expression
  import opened ToIr
  import opened Substitution
  import opened Equations
  import opened Normalize
  import opened OfIr
  import opened Nonvanishing

  // ---------------------------------------------------------------- constraints modulo d

  predicate SatisfiesMod(n: int, s: Sign, d: int) {
    (s == Null && Divides(d, n)) || (s == NotNull && !Divides(d, n))
  }

  /** c only asks which polynomials are zero, and does so truly when the multiples of d count as zero. */
  ghost predicate HoldsMod(c: Ctnts, v: Valuation, d: int) {
    c.Conjunction? && forall p :: p in c.signs ==> SatisfiesMod(PolyValue(p, v), c.signs[p], d)
  }

  ghost predicate AnyHoldsMod(cs: seq<Ctnts>, v: Valuation, d: int) {
    exists c :: c in cs && HoldsMod(c, v, d)
  }

  ghost predicate CoversMod(ir: Ir, v: Valuation, d: int) {
    exists b :: b in ir && HoldsMod(b.0, v, d)
  }

  lemma CtntsAndMod(c1: Ctnts, c2: Ctnts, v: Valuation, d: int)
    requires HoldsMod(c1, v, d) && HoldsMod(c2, v, d)
    ensures HoldsMod(CtntsAnd(c1, c2), v, d)
  {
    hide PolyValue; hide Divides;
    forall p | p in c1.signs && p in c2.signs
      ensures SignAnd(c1.signs[p], c2.signs[p]) == Some(c1.signs[p])
    {
      assert SatisfiesMod(PolyValue(p, v), c1.signs[p], d) && SatisfiesMod(PolyValue(p, v), c2.signs[p], d);
    }
  }

  lemma CoversConcat(ir1: Ir, ir2: Ir, v: Valuation, d: int)
    ensures CoversMod(ir1 + ir2, v, d) <==> CoversMod(ir1, v, d) || CoversMod(ir2, v, d)
  {
    hide HoldsMod;
    assert forall b :: b in ir1 + ir2 <==> b in ir1 || b in ir2;
  }

  lemma CoversCons(b: Branch, ir: Ir, v: Valuation, d: int)
    ensures CoversMod([b] + ir, v, d) <==> HoldsMod(b.0, v, d) || CoversMod(ir, v, d)
  {
    hide HoldsMod;
    assert forall b' :: b' in [b] + ir <==> b' == b || b' in ir;
  }

  lemma CoversFirst(ir: Ir, v: Valuation, d: int)
    requires ir != []
    ensures CoversMod(ir, v, d) <==> HoldsMod(ir[0].0, v, d) || CoversMod(ir[1..], v, d)
  {
    CoversCons(ir[0], ir[1..], v, d);
    assert [ir[0]] + ir[1..] == ir;
  }

  lemma AnyConcat(cs: seq<Ctnts>, ds: seq<Ctnts>, v: Valuation, d: int)
    ensures AnyHoldsMod(cs + ds, v, d) <==> AnyHoldsMod(cs, v, d) || AnyHoldsMod(ds, v, d)
  {
    hide HoldsMod;
    assert forall c :: c in cs + ds <==> c in cs || c in ds;
  }

  lemma AnyCons(c: Ctnts, cs: seq<Ctnts>, v: Valuation, d: int)
    ensures AnyHoldsMod([c] + cs, v, d) <==> HoldsMod(c, v, d) || AnyHoldsMod(cs, v, d)
  {
    hide HoldsMod;
    assert forall c' :: c' in [c] + cs <==> c' == c || c' in cs;
  }

  lemma AnyFirst(cs: seq<Ctnts>, v: Valuation, d: int)
    requires cs != []
    ensures AnyHoldsMod(cs, v, d) <==> HoldsMod(cs[0], v, d) || AnyHoldsMod(cs[1..], v, d)
  {
    AnyCons(cs[0], cs[1..], v, d);
    assert [cs[0]] + cs[1..] == cs;
  }

  // ---------------------------------------------------------------- compilation leaves no gap

  lemma {:induction false} CrossOneCovers(b: Branch, ir: Ir, f: (Poly, Poly) -> Poly, v: Valuation, d: int)
    requires HoldsMod(b.0, v, d) && CoversMod(ir, v, d)
    ensures CoversMod(CrossOne(b, ir, f), v, d)
  {
    hide HoldsMod; hide CtntsAnd; hide CoversMod;
    CoversEmpty(v, d);
    CoversFirst(ir, v, d);
    CoversCons((CtntsAnd(b.0, ir[0].0), f(b.1, ir[0].1)), CrossOne(b, ir[1..], f), v, d);
    if HoldsMod(ir[0].0, v, d) {
      CtntsAndMod(b.0, ir[0].0, v, d);
    } else {
      CrossOneCovers(b, ir[1..], f, v, d);
    }
  }

  lemma CoversEmpty(v: Valuation, d: int)
    ensures !CoversMod([], v, d) && !AnyHoldsMod([], v, d)
  {}

  lemma {:induction false} CrossNumCovers(ir1: Ir, ir2: Ir, f: (Poly, Poly) -> Poly, v: Valuation, d: int)
    requires CoversMod(ir1, v, d) && CoversMod(ir2, v, d)
    ensures CoversMod(CrossNum(ir1, ir2, f), v, d)
  {
    hide HoldsMod; hide CrossOne; hide CoversMod;
    CoversEmpty(v, d);
    CoversFirst(ir1, v, d);
    CoversConcat(CrossOne(ir1[0], ir2, f), CrossNum(ir1[1..], ir2, f), v, d);
    if HoldsMod(ir1[0].0, v, d) {
      CrossOneCovers(ir1[0], ir2, f, v, d);
    } else {
      CrossNumCovers(ir1[1..], ir2, f, v, d);
    }
  }

  lemma {:induction false} MapNumCovers(f: Poly -> Poly, ir: Ir, v: Valuation, d: int)
    requires CoversMod(ir, v, d)
    ensures CoversMod(MapNum(f, ir), v, d)
  {
    hide HoldsMod; hide CoversMod;
    CoversEmpty(v, d);
    CoversFirst(ir, v, d);
    CoversCons((ir[0].0, f(ir[0].1)), MapNum(f, ir[1..]), v, d);
    if !HoldsMod(ir[0].0, v, d) {
      MapNumCovers(f, ir[1..], v, d);
    }
  }

  lemma {:induction false} RestrictOneCovers(c: Ctnts, ir: Ir, v: Valuation, d: int)
    requires HoldsMod(c, v, d) && CoversMod(ir, v, d)
    ensures CoversMod(RestrictOne(c, ir), v, d)
  {
    hide HoldsMod; hide CtntsAnd; hide CoversMod;
    CoversEmpty(v, d);
    CoversFirst(ir, v, d);
    CoversCons((CtntsAnd(c, ir[0].0), ir[0].1), RestrictOne(c, ir[1..]), v, d);
    if HoldsMod(ir[0].0, v, d) {
      CtntsAndMod(c, ir[0].0, v, d);
    } else {
      RestrictOneCovers(c, ir[1..], v, d);
    }
  }

  lemma {:induction false} RestrictCovers(cs: seq<Ctnts>, ir: Ir, v: Valuation, d: int)
    requires AnyHoldsMod(cs, v, d) && CoversMod(ir, v, d)
    ensures CoversMod(Restrict(cs, ir), v, d)
  {
    hide HoldsMod; hide RestrictOne; hide CoversMod; hide AnyHoldsMod;
    CoversEmpty(v, d);
    AnyFirst(cs, v, d);
    CoversConcat(RestrictOne(cs[0], ir), Restrict(cs[1..], ir), v, d);
    if HoldsMod(cs[0], v, d) {
      RestrictOneCovers(cs[0], ir, v, d);
    } else {
      RestrictCovers(cs[1..], ir, v, d);
    }
  }

  lemma {:induction false} AndAllCovers(c: Ctnts, cs: seq<Ctnts>, v: Valuation, d: int)
    requires HoldsMod(c, v, d) && AnyHoldsMod(cs, v, d)
    ensures AnyHoldsMod(AndAll(c, cs), v, d)
  {
    hide HoldsMod; hide CtntsAnd; hide AnyHoldsMod;
    CoversEmpty(v, d);
    AnyFirst(cs, v, d);
    AnyCons(CtntsAnd(c, cs[0]), AndAll(c, cs[1..]), v, d);
    if HoldsMod(cs[0], v, d) {
      CtntsAndMod(c, cs[0], v, d);
    } else {
      AndAllCovers(c, cs[1..], v, d);
    }
  }

  lemma {:induction false} CrossAndCovers(cs: seq<Ctnts>, ds: seq<Ctnts>, v: Valuation, d: int)
    requires AnyHoldsMod(cs, v, d) && AnyHoldsMod(ds, v, d)
    ensures AnyHoldsMod(CrossAnd(cs, ds), v, d)
  {
    hide HoldsMod; hide AndAll; hide AnyHoldsMod;
    CoversEmpty(v, d);
    AnyFirst(cs, v, d);
    AnyConcat(AndAll(cs[0], ds), CrossAnd(cs[1..], ds), v, d);
    if HoldsMod(cs[0], v, d) {
      AndAllCovers(cs[0], ds, v, d);
    } else {
      CrossAndCovers(cs[1..], ds, v, d);
    }
  }

  /** The test for zero, or the test for the contrary, holds. */
  lemma {:induction false} IrToCondCovers(ir: Ir, v: Valuation, d: int)
    requires CoversMod(ir, v, d)
    ensures AnyHoldsMod(IrToCond(Null, ir), v, d) || AnyHoldsMod(IrToCond(NotNull, ir), v, d)
  {
    hide HoldsMod; hide CtntsAnd; hide CoversMod; hide AnyHoldsMod;
    CoversEmpty(v, d);
    CoversFirst(ir, v, d);
    AnyFirst(IrToCond(Null, ir), v, d);
    AnyFirst(IrToCond(NotNull, ir), v, d);
    if HoldsMod(ir[0].0, v, d) {
      var s := if Divides(d, PolyValue(ir[0].1, v)) then Null else NotNull;
      SingleMod(ir[0].1, s, v, d);
      CtntsAndMod(Conjunction(map[ir[0].1 := s]), ir[0].0, v, d);
    } else {
      IrToCondCovers(ir[1..], v, d);
    }
  }

  lemma SingleMod(p: Poly, s: Sign, v: Valuation, d: int)
    ensures HoldsMod(Conjunction(map[p := s]), v, d) <==> SatisfiesMod(PolyValue(p, v), s, d)
  {
    assert p in map[p := s];
  }

  lemma AlwaysCovers(p: Poly, v: Valuation, d: int)
    ensures CoversMod(Always(p), v, d) && HoldsMod(CTNTS_TRUE, v, d)
  {
    assert (CTNTS_TRUE, p) in Always(p);
  }

  /** Whatever d is, some branch of a compiled expression holds modulo d. */
  lemma {:induction false} CompileCovers(env: Env, e: Expr, v: Valuation, d: int)
    requires DeclaredInOrder(env) && Compile(env, e).Some?
    ensures CoversMod(Compile(env, e).value, v, d)
    decreases Rank(env, e), Size(e)
  {
    hide CoversMod; hide AnyHoldsMod; hide CrossNum; hide MapNum; hide Restrict; hide DeclaredInOrder;
    AlwaysCoversAll(v, d);
    match e
    case EVar(x) =>
      if x !in env.constants && env.types[x].ExactInt? {
        VarCovers(env, x, v, d);
      }
    case EBinop(op, e1, e2) =>
      if op == PLUS || op == MUL {
        CompileCovers(env, e1, v, d);
        CompileCovers(env, e2, v, d);
        CrossNumCovers(Compile(env, e1).value, Compile(env, e2).value, if op == PLUS then AddPolys else MultPolys, v, d);
      } else if op == MINUS {
        assert Rank(env, EUnop(NEG, e2)) == Rank(env, e2) && Size(EUnop(NEG, e2)) == Size(e2) + 1;
        CompileCovers(env, EBinop(PLUS, e1, EUnop(NEG, e2)), v, d);
      } else if op == SHL && e2.ELiteral? && e2.lit.LInt? && e2.lit.i >= 0 {
        CompileCovers(env, e1, v, d);
        MapNumCovers(ScaleBy(Power(2, e2.lit.i)), Compile(env, e1).value, v, d);
      }
    case EUnop(uop, e0) =>
      if uop == NEG {
        CompileCovers(env, e0, v, d);
        MapNumCovers(PolyNeg, Compile(env, e0).value, v, d);
      }
    case ECond(c, e1, e2) =>
      CondCovers(env, c, v, d);
      CompileCovers(env, e1, v, d);
      CompileCovers(env, e2, v, d);
      var (cs, ncs) := CompileCond(env, c).value;
      var ir1, ir2 := Compile(env, e1).value, Compile(env, e2).value;
      CoversConcat(Restrict(cs, ir1), Restrict(ncs, ir2), v, d);
      if AnyHoldsMod(cs, v, d) {
        RestrictCovers(cs, ir1, v, d);
      } else {
        RestrictCovers(ncs, ir2, v, d);
      }
    case ELiteral(_) =>
  }

  lemma AlwaysCoversAll(v: Valuation, d: int)
    ensures forall p :: CoversMod(Always(p), v, d)
  {
    forall p
      ensures CoversMod(Always(p), v, d)
    {
      AlwaysCovers(p, v, d);
    }
  }

  lemma {:induction false} VarCovers(env: Env, x: Atom, v: Valuation, d: int)
    requires DeclaredInOrder(env) && Compile(env, EVar(x)).Some?
    requires x !in env.constants && x in env.types && env.types[x].ExactInt?
    ensures CoversMod(Compile(env, EVar(x)).value, v, d)
    decreases Rank(env, EVar(x)), Size(EVar(x)), 0
  {
    CompileCovers(env, env.types[x].value, v, d);
  }

  lemma {:induction false} CondCovers(env: Env, e: Expr, v: Valuation, d: int)
    requires DeclaredInOrder(env) && CompileCond(env, e).Some?
    ensures var (cs, ncs) := CompileCond(env, e).value; AnyHoldsMod(cs, v, d) || AnyHoldsMod(ncs, v, d)
    decreases Rank(env, e), Size(e)
  {
    hide CoversMod; hide AnyHoldsMod; hide CrossAnd; hide IrToCond; hide DeclaredInOrder;
    match e
    case ELiteral(l) =>
      BoolCovers(l.b, v, d);
    case EBinop(op, e1, e2) =>
      if op == BAND || op == BOR {
        CondCovers(env, e1, v, d);
        CondCovers(env, e2, v, d);
        var (c1, n1) := CompileCond(env, e1).value;
        var (c2, n2) := CompileCond(env, e2).value;
        if op == BAND {
          AndCovers(c1, n1, c2, n2, v, d);
        } else {
          AndCovers(n1, c1, n2, c2, v, d);
        }
      } else {
        CompileCovers(env, EBinop(MINUS, e1, e2), v, d);
        IrToCondCovers(Compile(env, EBinop(MINUS, e1, e2)).value, v, d);
      }
    case ECond(c, e1, e2) =>
      CondCovers(env, c, v, d);
      CondCovers(env, e1, v, d);
      CondCovers(env, e2, v, d);
      var (cc, nc) := CompileCond(env, c).value;
      var (c1, n1) := CompileCond(env, e1).value;
      var (c2, n2) := CompileCond(env, e2).value;
      ChoiceCovers(cc, nc, c1, n1, c2, n2, v, d);
  }

  lemma BoolCovers(b: bool, v: Valuation, d: int)
    ensures AnyHoldsMod([CtntsOfBool(b)], v, d) || AnyHoldsMod([CtntsOfBool(!b)], v, d)
  {
    assert CTNTS_TRUE in [CtntsOfBool(b)] || CTNTS_TRUE in [CtntsOfBool(!b)];
    AlwaysCovers(map[], v, d);
  }

  lemma AndCovers(c1: seq<Ctnts>, n1: seq<Ctnts>, c2: seq<Ctnts>, n2: seq<Ctnts>, v: Valuation, d: int)
    requires (AnyHoldsMod(c1, v, d) || AnyHoldsMod(n1, v, d)) && (AnyHoldsMod(c2, v, d) || AnyHoldsMod(n2, v, d))
    ensures AnyHoldsMod(CrossAnd(c1, c2), v, d) || AnyHoldsMod(n1 + n2, v, d)
  {
    hide AnyHoldsMod;
    AnyConcat(n1, n2, v, d);
    if AnyHoldsMod(c1, v, d) && AnyHoldsMod(c2, v, d) {
      CrossAndCovers(c1, c2, v, d);
    }
  }

  lemma ChoiceCovers(cc: seq<Ctnts>, nc: seq<Ctnts>, c1: seq<Ctnts>, n1: seq<Ctnts>, c2: seq<Ctnts>, n2: seq<Ctnts>,
      v: Valuation, d: int)
    requires AnyHoldsMod(cc, v, d) || AnyHoldsMod(nc, v, d)
    requires (AnyHoldsMod(c1, v, d) || AnyHoldsMod(n1, v, d)) && (AnyHoldsMod(c2, v, d) || AnyHoldsMod(n2, v, d))
    ensures AnyHoldsMod(CrossAnd(cc, c1) + CrossAnd(nc, c2), v, d) || AnyHoldsMod(CrossAnd(nc + n1, cc + n2), v, d)
  {
    hide AnyHoldsMod; hide CrossAnd;
    AnyConcat(nc, n1, v, d);
    AnyConcat(cc, n2, v, d);
    AnyConcat(CrossAnd(cc, c1), CrossAnd(nc, c2), v, d);
    if AnyHoldsMod(cc, v, d) && AnyHoldsMod(c1, v, d) {
      CrossAndCovers(cc, c1, v, d);
    } else if AnyHoldsMod(nc, v, d) && AnyHoldsMod(c2, v, d) {
      CrossAndCovers(nc, c2, v, d);
    } else {
      CrossAndCovers(nc + n1, cc + n2, v, d);
    }
  }

  // ---------------------------------------------------------------- numbers to keep clear of

  /** Every equation has factor one or value zero. */
  ghost predicate ExactCtnts(c: Ctnts) {
    c.Conjunction? ==> forall p :: IsEquation(c.signs, p) ==> Exact(p)
  }

  ghost predicate ExactIr(ir: Ir) {
    forall b :: b in ir ==> ExactCtnts(b.0)
  }

  const ZEROS: Valuation := _ => 0

  /** The numbers other than zero that deduce_equations drops or compares with zero. */
  ghost function Numbers(c: Ctnts): set<int> {
    if c.Bottom? then {}
    else
      (set p | p in c.signs :: Factor(p)) + (set p | p in c.signs :: PolyValue(p, ZEROS))
      + (set p | p in c.signs :: PolyValue(ReducePoly(Deduce(c).1, p), ZEROS)) - {0}
  }

  ghost function AllNumbers(ir: Ir): set<int> {
    if ir == [] then {} else Numbers(ir[0].0) + AllNumbers(ir[1..])
  }

  lemma {:induction false} NumbersOfBranch(ir: Ir, b: Branch)
    requires b in ir
    ensures Numbers(b.0) <= AllNumbers(ir)
  {
    hide Numbers;
    if b != ir[0] {
      NumbersOfBranch(ir[1..], b);
    }
  }

  lemma {:induction false} NumbersNotZero(ir: Ir)
    ensures 0 !in AllNumbers(ir)
  {
    if ir != [] {
      hide Factor; hide PolyValue; hide ReducePoly; hide Deduce;
      NumbersNotZero(ir[1..]);
    }
  }

  /** d is not a unit, and has no divisor in common with any of the numbers. */
  ghost predicate Clear(d: int, us: set<int>) {
    !Divides(d, 1) && forall u :: u in us ==> Cancels(d, u)
  }

  lemma ClearOf(d: int, us: set<int>, u: int)
    requires Clear(d, us) && u in us
    ensures !Divides(d, u)
  {
    hide Cancels;
    NotDivided(d, u);
  }

  // ---------------------------------------------------------------- deduction leaves no gap

  /** Modulo d as well, an exact equation gives its atom the value read off. */
  lemma EquationMod(c: Ctnts, p: Poly, v: Valuation, d: int)
    requires HoldsMod(c, v, d) && Clear(d, Numbers(c)) && IsEquation(c.signs, p) && Exact(p)
    ensures Divides(d, v(GetLinear(p).x) - GetLinear(p).c)
  {
    hide GetLinear; hide Factor; hide PolyValue; hide Divides; hide ReducePoly; hide Deduce;
    var x := GetLinear(p).x;
    GetLinearMeaning(p);
    EquationRightIff(p);
    assert SatisfiesMod(PolyValue(p, v), Null, d);
    assert Factor(p) in Numbers(c);
    if Factor(p) != 1 {
      assert Divides(d, Factor(p) * v(x)) && Cancels(d, Factor(p));
    }
  }

  /** The constant of a contradictory equation is not divisible by d. */
  lemma ContradictionMod(c: Ctnts, p: Poly, v: Valuation, d: int)
    requires c.Conjunction? && p in c.signs && c.signs[p] == Null && Clear(d, Numbers(c))
    requires GetLinear(p) == Contradiction
    ensures !HoldsMod(c, v, d)
  {
    hide LinearFold; hide Factor; hide PolyValue; hide Divides; hide ReducePoly; hide Deduce;
    GetLinearMeaning(p);
    LinearFoldValue(DropZeros(p), None, 0, v);
    LinearFoldValue(DropZeros(p), None, 0, ZEROS);
    DropZerosValue(p, v);
    DropZerosValue(p, ZEROS);
    assert PolyValue(p, ZEROS) in Numbers(c);
    ClearOf(d, Numbers(c), PolyValue(p, ZEROS));
    assert !SatisfiesMod(PolyValue(p, v), Null, d);
  }

  /** Substituting values that are right modulo d changes no value modulo d. */
  lemma ReducedMod(affs: seq<Affectation>, p: Poly, v: Valuation, d: int)
    requires forall a :: a in affs ==> Divides(d, v(a.x) - a.c)
    ensures Divides(d, PolyValue(ReducePoly(affs, p), v)) <==> Divides(d, PolyValue(p, v))
  {
    hide PolyValue; hide ReducePoly; hide Divides;
    var os := Others(affs, DropZeros(p));
    var w := Override(os, v);
    OthersSubset(affs, DropZeros(p));
    forall x
      ensures Divides(d, v(x) - w(x))
    {
      AssignedSome(os, x, v(x));
      DividesProduct(d, 0);
    }
    ReducePolyValue(affs, p, v);
    PolyCongruent(p, v, w, d);
    var i, j := PolyValue(p, v), PolyValue(p, w);
    if Divides(d, i) {
      DividesSum(d, i, i - j);
    }
    if Divides(d, j) {
      DividesSum(d, j, i - j);
    }
  }

  /** A reduced constraint that is constant is judged alike modulo d. */
  ghost predicate Judged(affs: seq<Affectation>, p: Poly, d: int) {
    forall k :: GetConstant(ReducePoly(affs, p)) == Some(k) && k != 0 ==> !Divides(d, k)
  }

  ghost predicate ReadyMod(affs: seq<Affectation>, rest: map<Poly, Sign>, v: Valuation, d: int) {
    forall p :: p in rest ==> SatisfiesMod(PolyValue(ReducePoly(affs, p), v), rest[p], d) && Judged(affs, p, d)
  }

  lemma NotContradictory(affs: seq<Affectation>, p: Poly, s: Sign, v: Valuation, d: int)
    requires SatisfiesMod(PolyValue(ReducePoly(affs, p), v), s, d) && Judged(affs, p, d)
    ensures IsTrivial(ReducePoly(affs, p), s).Some?
  {
    hide PolyValue; hide ReducePoly;
    var q := ReducePoly(affs, p);
    if GetConstant(q).Some? {
      GetConstantValue(q, v);
      DividesProduct(d, 0);
    }
  }

  lemma PutMod(acc: map<Poly, Sign>, q: Poly, s: Sign, v: Valuation, d: int)
    requires HoldsMod(Conjunction(acc), v, d) && SatisfiesMod(PolyValue(q, v), s, d)
    ensures HoldsMod(Conjunction(acc[q := s]), v, d)
    ensures q in acc ==> SignAnd(s, acc[q]) == Some(s)
  {
    hide PolyValue; hide Divides;
    assert q in acc ==> SatisfiesMod(PolyValue(q, v), acc[q], d);
  }

  lemma {:induction false} ReduceFoldMod(affs: seq<Affectation>, rest: map<Poly, Sign>, acc: map<Poly, Sign>, v: Valuation, d: int)
    requires HoldsMod(Conjunction(acc), v, d) && ReadyMod(affs, rest, v, d)
    ensures ReduceFold(affs, rest, acc).Some? && HoldsMod(Conjunction(ReduceFold(affs, rest, acc).value), v, d)
    decreases |rest|
  {
    if rest != map[] {
      hide HoldsMod; hide ReducePoly; hide SignAnd; hide IsTrivial; hide SatisfiesMod; hide Judged; hide PolyValue;
      var p := Pick(rest);
      MinusSmaller(rest, p);
      var q := ReducePoly(affs, p);
      NotContradictory(affs, p, rest[p], v, d);
      PutMod(acc, q, rest[p], v, d);
      assert ReadyMod(affs, rest - {p}, v, d);
      ReduceFoldMod(affs, rest - {p}, if IsTrivial(q, rest[p]).value then acc else acc[q := rest[p]], v, d);
    }
  }

  lemma DeduceReady(c: Ctnts, affs: seq<Affectation>, v: Valuation, d: int)
    requires HoldsMod(c, v, d) && ExactCtnts(c) && Clear(d, Numbers(c)) && Deduced(c, affs) && affs == Deduce(c).1
    ensures ReadyMod(affs, c.signs, v, d)
  {
    hide GetLinear; hide PolyValue; hide ReducePoly; hide Divides; hide Deduce; hide Factor; hide Exact;
    forall a | a in affs
      ensures Divides(d, v(a.x) - a.c)
    {
      assert ReadOff(c.signs, a) && IsEquation(c.signs, a.from.value);
      EquationMod(c, a.from.value, v, d);
    }
    forall p | p in c.signs
      ensures SatisfiesMod(PolyValue(ReducePoly(affs, p), v), c.signs[p], d) && Judged(affs, p, d)
    {
      ReducedMod(affs, p, v, d);
      assert SatisfiesMod(PolyValue(p, v), c.signs[p], d);
      forall k | GetConstant(ReducePoly(affs, p)) == Some(k) && k != 0
        ensures !Divides(d, k)
      {
        GetConstantValue(ReducePoly(affs, p), ZEROS);
        assert k in Numbers(c);
        ClearOf(d, Numbers(c), k);
      }
    }
  }

  /** Constraints with exact equations that hold modulo d are not found contradictory, and still hold modulo d. */
  lemma DeduceMod(c: Ctnts, v: Valuation, d: int)
    requires HoldsMod(c, v, d) && ExactCtnts(c) && Clear(d, Numbers(c))
    ensures HoldsMod(Deduce(c).0, v, d)
  {
    hide GetLinear; hide PolyValue; hide HoldsMod; hide ExactCtnts; hide Clear; hide Numbers; hide ReadyMod;
    assert c.Conjunction? && HoldsMod(Conjunction(map[]), v, d) by { AlwaysCovers(map[], v, d); IsConjunction(c, v, d); }
    DeduceFoldSpec(c.signs, []);
    if DeduceFold(c.signs, []).None? {
      var p :| p in c.signs && c.signs[p] == Null && GetLinear(p) == Contradiction;
      ContradictionMod(c, p, v, d);
    } else {
      var affs := Deduce(c).1;
      DeduceReady(c, affs, v, d);
      ReduceFoldMod(affs, c.signs, map[], v, d);
    }
  }

  lemma IsConjunction(c: Ctnts, v: Valuation, d: int)
    requires HoldsMod(c, v, d)
    ensures c.Conjunction?
  {}

  lemma {:induction false} ReduceBranchesCovers(ir: Ir, v: Valuation, d: int)
    requires CoversMod(ir, v, d) && ExactIr(ir) && Clear(d, AllNumbers(ir))
    ensures CoversMod(ReduceBranches(ir), v, d)
  {
    hide HoldsMod; hide Deduce; hide ReducePoly; hide CoversMod; hide ExactCtnts; hide AllNumbers; hide Numbers; hide Cancels;
    CoversEmpty(v, d);
    CoversFirst(ir, v, d);
    assert ir[0] in ir;
    var (c, affs) := Deduce(ir[0].0);
    CoversCons((c, ReducePoly(affs, ir[0].1)), ReduceBranches(ir[1..]), v, d);
    NumbersOfBranch(ir, ir[0]);
    if HoldsMod(ir[0].0, v, d) {
      DeduceMod(ir[0].0, v, d);
      IsConjunction(c, v, d);
    } else {
      NumbersSplit(ir);
      ReduceBranchesCovers(ir[1..], v, d);
    }
  }

  lemma NumbersSplit(ir: Ir)
    requires ir != []
    ensures AllNumbers(ir[1..]) <= AllNumbers(ir)
  {}

  // ---------------------------------------------------------------- a lone branch

  ghost predicate NoConstants(signs: map<Poly, Sign>) {
    forall p :: p in signs ==> NonConstant(p)
  }

  lemma OnlyConstant(p: Poly)
    requires p != map[] && forall m :: m in p ==> m == MONO_ONE
    ensures GetConstant(p).Some?
  {
    var m := Pick(p);
    assert p.Keys == {MONO_ONE};
  }

  lemma SingleKey(p: Poly, k: Mono)
    requires |p| == 1 && k in p
    ensures forall m :: m in p ==> m == k
  {
    MinusSmaller(p, k);
    assert forall m :: m in p ==> m == k || m in p - {k};
  }

  lemma ConstantIff(p: Poly)
    ensures GetConstant(p).None? <==> NonConstant(p)
  {
    if p != map[] && !NonConstant(p) {
      OnlyConstant(p);
    }
    if |p| == 1 && MONO_ONE in p {
      SingleKey(p, MONO_ONE);
    }
  }

  /** The reduced constraints are not constant. */
  lemma {:induction false} ReduceFoldNoConstants(affs: seq<Affectation>, rest: map<Poly, Sign>, acc: map<Poly, Sign>)
    requires NoConstants(acc) && ReduceFold(affs, rest, acc).Some?
    ensures NoConstants(ReduceFold(affs, rest, acc).value)
    decreases |rest|
  {
    if rest != map[] {
      hide ReducePoly; hide SignAnd; hide GetConstant; hide NonConstant;
      var p := Pick(rest);
      MinusSmaller(rest, p);
      var q := ReducePoly(affs, p);
      if IsTrivial(q, rest[p]).value {
        ReduceFoldNoConstants(affs, rest - {p}, acc);
      } else {
        ConstantIff(q);
        if q !in acc {
          ReduceFoldNoConstants(affs, rest - {p}, acc[q := rest[p]]);
        } else {
          ReduceFoldNoConstants(affs, rest - {p}, acc[q := SignAnd(rest[p], acc[q]).value]);
        }
      }
    }
  }

  ghost predicate OpenBranch(b: Branch) {
    b.0.Conjunction? && NoConstants(b.0.signs)
  }

  lemma {:induction false} ReduceBranchesOpen(ir: Ir)
    ensures forall b :: b in ReduceBranches(ir) ==> OpenBranch(b)
  {
    if ir != [] {
      hide ReducePoly; hide ReduceFold; hide DeduceFold; hide NonConstant;
      ReduceBranchesOpen(ir[1..]);
      var (c, affs) := Deduce(ir[0].0);
      if c.Conjunction? {
        ReduceFoldNoConstants(affs, ir[0].0.signs, map[]);
      }
    }
  }

  lemma OpenTrivial(b: Branch)
    requires OpenBranch(b)
    ensures GetTrivial(b.0) == if b.0 == CTNTS_TRUE then Some(true) else None
  {
    hide NonConstant; hide GetConstant;
    if b.0 != CTNTS_TRUE {
      var p := Pick(b.0.signs);
      ConstantIff(p);
    }
  }

  lemma CollapseOpen(rb: Ir)
    requires rb != [] && OpenBranch(rb[0])
    ensures Collapse(rb) == if rb[0].0 == CTNTS_TRUE then Always(rb[0].1) else [rb[0]] + Collapse(rb[1..])
  {
    hide GetTrivial; hide OpenBranch;
    OpenTrivial(rb[0]);
  }

  /** of_ir fails exactly when reduction leaves a single branch, and constraints in it. */
  lemma FailsIff(ir: Ir)
    ensures var rb := ReduceBranches(ir);
            Print(Reduce(ir)).None? <==> |rb| == 1 && rb[0].0 != CTNTS_TRUE
  {
    hide ReduceBranches; hide Collapse; hide PolyToExpr; hide OpenBranch; hide Nest;
    var rb := ReduceBranches(ir);
    ReduceBranchesOpen(ir);
    CollapseEmpty();
    if rb != [] {
      CollapseOpen(rb);
      if |rb| > 1 {
        assert rb[1..][0] in rb;
        CollapseOpen(rb[1..]);
      } else {
        assert rb[1..] == [];
      }
    }
  }

  lemma CollapseEmpty()
    ensures Collapse([]) == []
  {}

  lemma OpenConjunction(b: Branch)
    requires OpenBranch(b)
    ensures b.0.Conjunction?
  {}

  /** Where the constraint p of the lone branch fails modulo a d that is clear of the given numbers. */
  lemma Escape(p: Poly, s: Sign, us: set<int>, allowed: Atom -> bool) returns (v: Valuation, d: int)
    requires NonConstant(p) && Canonical(p) && Proper(p, allowed) && 0 !in us
    ensures Clear(d, us) && !SatisfiesMod(PolyValue(p, v), s, d)
  {
    hide NonConstant; hide Canonical; hide Proper; hide Cancels; hide PolyValue;
    if s == Null {
      d := 0;
      v := GrowsLarge(p, 1, allowed);
      forall u | u in us
        ensures Cancels(0, u)
      {
        ZeroCancels(u);
      }
    } else {
      var n := CommonMultiple(us);
      v, d := ReachModulus(p, n, allowed);
      forall u | u in us
        ensures Cancels(d, u)
      {
        OneModulo(d, n, u);
      }
    }
  }

  /** A lone branch with a constraint leaves a gap modulo some d. */
  lemma LoneGap(ir: Ir, b: Branch, us: set<int>, allowed: Atom -> bool) returns (v: Valuation, d: int)
    requires ReduceBranches(ir) == [b] && b.0 != CTNTS_TRUE && PrintableIr([b], allowed) && 0 !in us
    ensures Clear(d, us) && !CoversMod([b], v, d)
  {
    hide ReduceBranches; hide PolyValue; hide Canonical; hide Proper; hide NonConstant; hide Clear; hide SatisfiesMod;
    ReduceBranchesOpen(ir);
    assert b in [b];
    var p := Pick(b.0.signs);
    v, d := Escape(p, b.0.signs[p], us, allowed);
  }

  /** If no gap is left modulo any d and all equations are exact, of_ir does not fail. */
  lemma PrintSucceeds(ir: Ir, allowed: Atom -> bool)
    requires (forall v, d :: CoversMod(ir, v, d)) && ExactIr(ir) && PrintableIr(ReduceBranches(ir), allowed)
    ensures Print(Reduce(ir)).Some?
  {
    hide Print; hide Reduce; hide ReduceBranches; hide ExactIr; hide PrintableIr; hide Clear; hide CoversMod;
    FailsIff(ir);
    NumbersNotZero(ir);
    var rb := ReduceBranches(ir);
    if |rb| == 1 && rb[0].0 != CTNTS_TRUE {
      assert rb == [rb[0]];
      var v, d := LoneGap(ir, rb[0], AllNumbers(ir), allowed);
      ReduceBranchesCovers(ir, v, d);
    }
  }
}
