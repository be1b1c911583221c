/** normalize as a whole: compilation, reduction and printing keep the value (asllib/StaticInterpreter.ml). */
module NormalForm {
  import opened Prelude
  import opened Polynomial
  import opened Constraint
  import opened Expression
  import opened ToIr
  import opened Substitution
  import opened Equations
  import opened Normalize
  import opened OfIr
  import opened Branches

  /** The atoms that compilation leaves as variables. */
  predicate IsAtom(env: Env, x: Atom) {
    x !in env.constants && x in env.types && env.types[x].OtherInt?
  }

  ghost function AtomsOf(env: Env): Atom -> bool {
    x => IsAtom(env, x)
  }

  // ---------------------------------------------------------------- compiled polynomials mention atoms only

  lemma ProperAnd(c1: Ctnts, c2: Ctnts, allowed: Atom -> bool)
    requires ProperCtnts(c1, allowed) && ProperCtnts(c2, allowed)
    ensures ProperCtnts(CtntsAnd(c1, c2), allowed)
  {
    hide Proper;
  }

  lemma ProperConcat(ir1: Ir, ir2: Ir, allowed: Atom -> bool)
    requires ProperIr(ir1, allowed) && ProperIr(ir2, allowed)
    ensures ProperIr(ir1 + ir2, allowed)
  {}

  lemma {:induction false} ProperCrossOne(b: Branch, ir: Ir, f: (Poly, Poly) -> Poly, allowed: Atom -> bool)
    requires ProperCtnts(b.0, allowed) && Proper(b.1, allowed) && ProperIr(ir, allowed)
    requires forall p, q :: Proper(p, allowed) && Proper(q, allowed) ==> Proper(f(p, q), allowed)
    ensures ProperIr(CrossOne(b, ir, f), allowed)
  {
    hide Proper; hide ProperCtnts; hide CtntsAnd;
    if ir != [] {
      assert ir[0] in ir;
      ProperCrossOne(b, ir[1..], f, allowed);
      ProperAnd(b.0, ir[0].0, allowed);
    }
  }

  lemma {:induction false} ProperCrossNum(ir1: Ir, ir2: Ir, f: (Poly, Poly) -> Poly, allowed: Atom -> bool)
    requires ProperIr(ir1, allowed) && ProperIr(ir2, allowed)
    requires forall p, q :: Proper(p, allowed) && Proper(q, allowed) ==> Proper(f(p, q), allowed)
    ensures ProperIr(CrossNum(ir1, ir2, f), allowed)
  {
    hide Proper; hide ProperCtnts; hide CrossOne;
    if ir1 != [] {
      assert ir1[0] in ir1;
      ProperCrossOne(ir1[0], ir2, f, allowed);
      ProperCrossNum(ir1[1..], ir2, f, allowed);
      ProperConcat(CrossOne(ir1[0], ir2, f), CrossNum(ir1[1..], ir2, f), allowed);
    }
  }

  lemma {:induction false} ProperMapNum(f: Poly -> Poly, ir: Ir, allowed: Atom -> bool)
    requires ProperIr(ir, allowed) && forall p :: Proper(p, allowed) ==> Proper(f(p), allowed)
    ensures ProperIr(MapNum(f, ir), allowed)
  {
    hide Proper; hide ProperCtnts;
    if ir != [] {
      assert ir[0] in ir;
      ProperMapNum(f, ir[1..], allowed);
    }
  }

  lemma {:induction false} ProperRestrictOne(c: Ctnts, ir: Ir, allowed: Atom -> bool)
    requires ProperCtnts(c, allowed) && ProperIr(ir, allowed)
    ensures ProperIr(RestrictOne(c, ir), allowed)
  {
    hide Proper; hide ProperCtnts; hide CtntsAnd;
    if ir != [] {
      assert ir[0] in ir;
      ProperRestrictOne(c, ir[1..], allowed);
      ProperAnd(c, ir[0].0, allowed);
    }
  }

  lemma {:induction false} ProperRestrict(cs: seq<Ctnts>, ir: Ir, allowed: Atom -> bool)
    requires ProperAll(cs, allowed) && ProperIr(ir, allowed)
    ensures ProperIr(Restrict(cs, ir), allowed)
  {
    hide Proper; hide ProperCtnts; hide RestrictOne;
    if cs != [] {
      assert cs[0] in cs;
      ProperRestrictOne(cs[0], ir, allowed);
      ProperRestrict(cs[1..], ir, allowed);
      ProperConcat(RestrictOne(cs[0], ir), Restrict(cs[1..], ir), allowed);
    }
  }

  lemma {:induction false} ProperIrToCond(s: Sign, ir: Ir, allowed: Atom -> bool)
    requires ProperIr(ir, allowed)
    ensures ProperAll(IrToCond(s, ir), allowed)
  {
    hide Proper; hide CtntsAnd;
    if ir != [] {
      assert ir[0] in ir;
      ProperIrToCond(s, ir[1..], allowed);
      ProperAnd(Conjunction(map[ir[0].1 := s]), ir[0].0, allowed);
    }
  }

  lemma {:induction false} ProperAndAll(c: Ctnts, ds: seq<Ctnts>, allowed: Atom -> bool)
    requires ProperCtnts(c, allowed) && ProperAll(ds, allowed)
    ensures ProperAll(AndAll(c, ds), allowed)
  {
    hide ProperCtnts; hide CtntsAnd;
    if ds != [] {
      assert ds[0] in ds;
      ProperAndAll(c, ds[1..], allowed);
      ProperAnd(c, ds[0], allowed);
    }
  }

  lemma {:induction false} ProperCrossAnd(cs: seq<Ctnts>, ds: seq<Ctnts>, allowed: Atom -> bool)
    requires ProperAll(cs, allowed) && ProperAll(ds, allowed)
    ensures ProperAll(CrossAnd(cs, ds), allowed)
  {
    hide ProperCtnts; hide AndAll;
    if cs != [] {
      assert cs[0] in cs;
      ProperAndAll(cs[0], ds, allowed);
      ProperCrossAnd(cs[1..], ds, allowed);
    }
  }

  lemma ProperAlways(p: Poly, allowed: Atom -> bool)
    requires Proper(p, allowed)
    ensures ProperIr(Always(p), allowed)
  {}

  lemma {:induction false} CompileProper(env: Env, e: Expr)
    requires DeclaredInOrder(env) && Compile(env, e).Some?
    ensures ProperIr(Compile(env, e).value, AtomsOf(env))
    decreases Rank(env, e), Size(e), 1
  {
    hide Proper; hide ProperIr; hide ProperAll; hide CrossNum; hide MapNum; hide Restrict;
    match e
    case EVar(x) =>
      CompileVarProper(env, x);
    case EBinop(op, e1, e2) =>
      if op == PLUS || op == MUL {
        CompileProper(env, e1);
        CompileProper(env, e2);
        ArithmeticProper(Compile(env, e1).value, Compile(env, e2).value, 0, AtomsOf(env));
      } else if op == MINUS {
        assert Rank(env, EUnop(NEG, e2)) == Rank(env, e2) && Size(EUnop(NEG, e2)) == Size(e2) + 1;
        CompileProper(env, EBinop(PLUS, e1, EUnop(NEG, e2)));
      } else if op == SHL && e2.ELiteral? && e2.lit.LInt? && e2.lit.i >= 0 {
        CompileProper(env, e1);
        ArithmeticProper(Compile(env, e1).value, Compile(env, e1).value, Power(2, e2.lit.i), AtomsOf(env));
      } else {
        ConstantProper(AtomsOf(env));
      }
    case EUnop(uop, e0) =>
      if uop == NEG {
        CompileProper(env, e0);
        ArithmeticProper(Compile(env, e0).value, Compile(env, e0).value, 0, AtomsOf(env));
      } else {
        ConstantProper(AtomsOf(env));
      }
    case ECond(c, e1, e2) =>
      CompileCondProper(env, c);
      CompileProper(env, e1);
      CompileProper(env, e2);
      var (cs, ncs) := CompileCond(env, c).value;
      ProperRestrict(cs, Compile(env, e1).value, AtomsOf(env));
      ProperRestrict(ncs, Compile(env, e2).value, AtomsOf(env));
      ProperConcat(Restrict(cs, Compile(env, e1).value), Restrict(ncs, Compile(env, e2).value), AtomsOf(env));
    case ELiteral(_) =>
      ConstantProper(AtomsOf(env));
  }

  lemma ConstantProper(allowed: Atom -> bool)
    ensures forall i :: ProperIr(Always(PolyOfZ(i)), allowed)
  {}

  lemma ArithmeticProper(ir1: Ir, ir2: Ir, f: int, allowed: Atom -> bool)
    requires ProperIr(ir1, allowed) && ProperIr(ir2, allowed)
    ensures ProperIr(CrossNum(ir1, ir2, AddPolys), allowed)
    ensures ProperIr(CrossNum(ir1, ir2, MultPolys), allowed)
    ensures ProperIr(MapNum(PolyNeg, ir1), allowed)
    ensures ProperIr(MapNum(ScaleBy(f), ir1), allowed)
  {
    hide Proper; hide ProperIr; hide CrossNum; hide MapNum;
    forall p, q | Proper(p, allowed) && Proper(q, allowed)
      ensures Proper(AddPolys(p, q), allowed) && Proper(MultPolys(p, q), allowed)
      ensures Proper(PolyNeg(p), allowed) && Proper(ScaleBy(f)(p), allowed)
    {
      ProperOperations(p, q, f, allowed);
      ProperEmpty(allowed);
      ProperMultRows(p, q, map[], allowed);
    }
    forall p | Proper(p, allowed)
      ensures Proper(PolyNeg(p), allowed) && Proper(ScaleBy(f)(p), allowed)
    {
      ProperOperations(p, p, f, allowed);
    }
    ProperCrossNum(ir1, ir2, AddPolys, allowed);
    ProperCrossNum(ir1, ir2, MultPolys, allowed);
    ProperMapNum(PolyNeg, ir1, allowed);
    ProperMapNum(ScaleBy(f), ir1, allowed);
  }

  lemma ProperEmpty(allowed: Atom -> bool)
    ensures Proper(map[], allowed)
  {}

  lemma {:induction false} CompileVarProper(env: Env, x: Atom)
    requires DeclaredInOrder(env) && Compile(env, EVar(x)).Some?
    ensures ProperIr(Compile(env, EVar(x)).value, AtomsOf(env))
    decreases Rank(env, EVar(x)), Size(EVar(x)), 0
  {
    if x in env.constants {
      ConstantProper(AtomsOf(env));
    } else if env.types[x].ExactInt? {
      CompileProper(env, env.types[x].value);
    } else {
      assert IsAtom(env, x);
      ProperAlways(PolyOfVar(x), AtomsOf(env));
    }
  }

  lemma {:induction false} CompileCondProper(env: Env, e: Expr)
    requires DeclaredInOrder(env) && CompileCond(env, e).Some?
    ensures var (cs, ncs) := CompileCond(env, e).value;
            ProperAll(cs, AtomsOf(env)) && ProperAll(ncs, AtomsOf(env))
    decreases Rank(env, e), Size(e), 1
  {
    hide ProperCtnts; hide CrossAnd; hide IrToCond; hide ProperIr;
    var allowed := AtomsOf(env);
    match e
    case ELiteral(l) =>
      BoolProper(l.b, allowed);
    case EBinop(op, e1, e2) =>
      if op == EQ_OP {
        CompileProper(env, EBinop(MINUS, e1, e2));
        ProperIrToCond(Null, Compile(env, EBinop(MINUS, e1, e2)).value, allowed);
        ProperIrToCond(NotNull, Compile(env, EBinop(MINUS, e1, e2)).value, allowed);
      } else {
        CompileCondProper(env, e1);
        CompileCondProper(env, e2);
        var (c1, n1) := CompileCond(env, e1).value;
        var (c2, n2) := CompileCond(env, e2).value;
        ProperCrossAnd(c1, c2, allowed);
        ProperCrossAnd(n1, n2, allowed);
      }
    case ECond(c, e1, e2) =>
      CompileCondProper(env, c);
      CompileCondProper(env, e1);
      CompileCondProper(env, e2);
      var (cc, nc) := CompileCond(env, c).value;
      var (c1, n1) := CompileCond(env, e1).value;
      var (c2, n2) := CompileCond(env, e2).value;
      ProperCrossAnd(cc, c1, allowed);
      ProperCrossAnd(nc, c2, allowed);
      ProperCrossAnd(nc + n1, cc + n2, allowed);
    case _ =>
  }

  lemma BoolProper(b: bool, allowed: Atom -> bool)
    ensures ProperAll([CtntsOfBool(b)], allowed)
    ensures ProperAll([CtntsOfBool(!b)], allowed)
  {}

  // ---------------------------------------------------------------- reduced polynomials are canonical

  lemma {:induction false} SubstMonoSmaller(affs: seq<Affectation>, m: Mono, f: int)
    ensures var (m', f') := SubstMono(affs, m, f); forall x :: x in m' ==> x in m && m'[x] == m[x]
  {
    if affs != [] {
      var a := affs[0];
      if a.x in m {
        SubstMonoSmaller(affs[1..], m - {a.x}, f * Power(a.c, m[a.x]));
      } else {
        SubstMonoSmaller(affs[1..], m, f);
      }
    }
  }

  lemma CanonicalAddMono(m: Mono, f: int, acc: Poly)
    requires Canonical(acc) && f != 0
    ensures Canonical(AddMono(m, f, acc))
  {}

  lemma {:induction false} SubstFoldClean(affs: seq<Affectation>, rest: Poly, acc: Poly, allowed: Atom -> bool)
    requires Proper(rest, allowed) && Proper(acc, allowed) && Canonical(acc)
    ensures Proper(SubstFold(affs, rest, acc), allowed) && Canonical(SubstFold(affs, rest, acc))
    decreases |rest|
  {
    if rest != map[] {
      hide SubstMono; hide AddMono; hide Canonical;
      var m := Pick(rest);
      MinusSmaller(rest, m);
      var (m', f') := SubstMono(affs, m, rest[m]);
      SubstMonoSmaller(affs, m, rest[m]);
      ProperAddMono(m', f', acc, allowed);
      if f' != 0 {
        CanonicalAddMono(m', f', acc);
      }
      SubstFoldClean(affs, rest - {m}, if f' == 0 then acc else AddMono(m', f', acc), allowed);
    }
  }

  lemma ReducePolyClean(affs: seq<Affectation>, p: Poly, allowed: Atom -> bool)
    requires Proper(p, allowed)
    ensures Proper(ReducePoly(affs, p), allowed) && Canonical(ReducePoly(affs, p))
  {
    var q := DropZeros(p);
    SubstFoldClean(Others(affs, q), q, map[], allowed);
  }

  lemma {:induction false} ReduceFoldClean(affs: seq<Affectation>, rest: map<Poly, Sign>, acc: map<Poly, Sign>, allowed: Atom -> bool)
    requires (forall p :: p in rest ==> Proper(p, allowed)) && Printable(acc, allowed)
    requires ReduceFold(affs, rest, acc).Some?
    ensures Printable(ReduceFold(affs, rest, acc).value, allowed)
    decreases |rest|
  {
    if rest != map[] {
      hide ReducePoly; hide SignAnd; hide GetConstant; hide Proper; hide Canonical;
      var p := Pick(rest);
      MinusSmaller(rest, p);
      var q := ReducePoly(affs, p);
      ReducePolyClean(affs, p, allowed);
      if IsTrivial(q, rest[p]).value {
        ReduceFoldClean(affs, rest - {p}, acc, allowed);
      } else if q !in acc {
        ReduceFoldClean(affs, rest - {p}, acc[q := rest[p]], allowed);
      } else {
        ReduceFoldClean(affs, rest - {p}, acc[q := SignAnd(rest[p], acc[q]).value], allowed);
      }
    }
  }

  lemma DeduceClean(c: Ctnts, allowed: Atom -> bool)
    requires ProperCtnts(c, allowed)
    ensures Deduce(c).0.Conjunction? ==> Printable(Deduce(c).0.signs, allowed)
  {
    hide ReduceFold; hide DeduceFold; hide Proper;
    if Deduce(c).0.Conjunction? {
      ReduceFoldClean(Deduce(c).1, c.signs, map[], allowed);
    }
  }

  lemma {:induction false} ReduceBranchesClean(ir: Ir, allowed: Atom -> bool)
    requires ProperIr(ir, allowed)
    ensures PrintableIr(ReduceBranches(ir), allowed)
  {
    if ir != [] {
      hide Deduce; hide ReducePoly; hide Printable; hide Proper; hide ProperCtnts; hide Canonical;
      assert ir[0] in ir;
      ReduceBranchesClean(ir[1..], allowed);
      DeduceClean(ir[0].0, allowed);
      ReducePolyClean(Deduce(ir[0].0).1, ir[0].1, allowed);
    }
  }

  lemma {:induction false} CollapseClean(ir: Ir, allowed: Atom -> bool)
    requires PrintableIr(ir, allowed)
    ensures PrintableIr(Collapse(ir), allowed)
  {
    if ir != [] {
      hide GetTrivial; hide Proper; hide Canonical;
      assert ir[0] in ir;
      CollapseClean(ir[1..], allowed);
    }
  }

  // ---------------------------------------------------------------- the whole of normalize

  lemma ReducedPrintable(env: Env, e: Expr)
    requires DeclaredInOrder(env) && Compile(env, e).Some?
    ensures var rb := ReduceBranches(Compile(env, e).value);
            PrintableIr(rb, AtomsOf(env)) && PrintableIr(Collapse(rb), AtomsOf(env))
  {
    hide Compile; hide PrintableIr; hide ProperIr; hide ReduceBranches; hide Collapse;
    CompileProper(env, e);
    ReduceBranchesClean(Compile(env, e).value, AtomsOf(env));
    CollapseClean(ReduceBranches(Compile(env, e).value), AtomsOf(env));
  }

  /** If every equation of the compiled disjunction has factor one or value zero, of_ir does not fail. */
  lemma NormalFormSucceeds(env: Env, e: Expr)
    requires DeclaredInOrder(env) && Compile(env, e).Some? && ExactIr(Compile(env, e).value)
    ensures NormalForm(env, e).Some?
  {
    hide Compile; hide Print; hide Reduce; hide ReduceBranches; hide ExactIr; hide PrintableIr; hide CoversMod;
    var ir := Compile(env, e).value;
    forall v, d
      ensures CoversMod(ir, v, d)
    {
      CompileCovers(env, e, v, d);
    }
    ReducedPrintable(env, e);
    PrintSucceeds(ir, AtomsOf(env));
  }

  /** Some branch has an equation without integer solution. */
  ghost predicate SomeHopeless(ir: Ir) {
    exists b :: b in ir && b.0.Conjunction? && Hopeless(b.0.signs)
  }

  lemma SolvedExact(ir: Ir)
    requires AllSolved(ir) && !SomeHopeless(ir)
    ensures ExactIr(ir)
  {
    hide Hopeless; hide IsEquation;
    forall b | b in ir
      ensures ExactCtnts(b.0)
    {
      assert Solved(b.0);
    }
  }

  /** The printed normal form has the value of the expression; it can only be missing if some branch is hopeless. */
  lemma NormalFormValue(env: Env, e: Expr, v: Valuation)
    requires DeclaredInOrder(env) && Consistent(env, v)
    requires Compile(env, e).Some? && AllSolved(Compile(env, e).value)
    ensures NormalForm(env, e).Some? ==>
              ValueIn(env, NormalForm(env, e).value, v).Some?
              && ValueIn(env, NormalForm(env, e).value, v) == ValueIn(env, e, v)
    ensures !SomeHopeless(Compile(env, e).value) ==> NormalForm(env, e).Some?
  {
    hide Compile; hide Print; hide Represents; hide PrintableIr; hide AllSolved; hide ReduceBranches; hide Collapse; hide ExactIr;
    hide SomeHopeless;
    var ir := Compile(env, e).value;
    if !SomeHopeless(ir) {
      SolvedExact(ir);
      NormalFormSucceeds(env, e);
    }
    if NormalForm(env, e).Some? {
      CompileMeaning(env, e, v);
      var n :| ValueIn(env, e, v) == Some(LInt(n)) && Represents(ir, v, n);
      ReduceMeaning(ir, v, n);
      ReducedPrintable(env, e);
      PrintValue(Reduce(ir), LookupIn(env, v), v, n, AtomsOf(env));
    }
  }
}
