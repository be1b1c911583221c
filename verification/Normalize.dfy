/** Reduction of case disjunctions and the equality test built on it (asllib/StaticInterpreter.ml). */
module Normalize {
  import opened Prelude
  import opened Polynomial
  import opened Constraint
  import opened Expression
  import opened ToIr
  import opened Substitution
  import opened Equations

  // ---------------------------------------------------------------- reduce

  /** filter_map of reduce: drops branches whose constraints are contradictory. */
  ghost function ReduceBranches(ir: Ir): Ir {
    if ir == [] then []
    else
      var (c, affs) := Deduce(ir[0].0);
      if c.Bottom? then ReduceBranches(ir[1..])
      else [(c, ReducePoly(affs, ir[0].1))] + ReduceBranches(ir[1..])
  }

  /** for_all ctnt_is_trivial, where None stands for Some false by interrupt. */
  ghost function TrivialFold(rest: map<Poly, Sign>): Option<bool>
    decreases |rest|
  {
    if rest == map[] then Some(true)
    else
      var p := Pick(rest);
      MinusSmaller(rest, p);
      match IsTrivial(p, rest[p])
      case None => Some(false)
      case Some(trivial) => if trivial then TrivialFold(rest - {p}) else None
  }

  /** ctnts_get_trivial_opt */
  ghost function GetTrivial(c: Ctnts): Option<bool> {
    if c.Bottom? then Some(false) else TrivialFold(c.signs)
  }

  /** fold_right of reduce: a branch that always holds replaces those after it. */
  ghost function Collapse(ir: Ir): Ir {
    if ir == [] then []
    else
      match GetTrivial(ir[0].0)
      case Some(b) => if b then Always(ir[0].1) else Collapse(ir[1..])
      case None => [ir[0]] + Collapse(ir[1..])
  }

  ghost function Reduce(ir: Ir): Ir {
    Collapse(ReduceBranches(ir))
  }

  ghost predicate AllSolved(ir: Ir) {
    forall b :: b in ir ==> Solved(b.0)
  }

  lemma {:induction false} TrivialFoldSpec(rest: map<Poly, Sign>, v: Valuation)
    ensures TrivialFold(rest) == Some(true) ==> Holds(Conjunction(rest), v)
    ensures TrivialFold(rest) == Some(false) ==> !Holds(Conjunction(rest), v)
    decreases |rest|
  {
    if rest != map[] {
      hide GetConstant;
      var p := Pick(rest);
      MinusSmaller(rest, p);
      if GetConstant(p).Some? {
        GetConstantValue(p, v);
      }
      TrivialFoldSpec(rest - {p}, v);
      HoldsReplace(rest, p, rest[p], v);
      assert rest[p := rest[p]] == rest;
    }
  }

  lemma GetTrivialSpec(c: Ctnts, v: Valuation)
    ensures GetTrivial(c) == Some(true) ==> Holds(c, v)
    ensures GetTrivial(c) == Some(false) ==> !Holds(c, v)
  {
    if c.Conjunction? {
      TrivialFoldSpec(c.signs, v);
    }
  }

  lemma {:induction false} ReduceBranchesMeaning(ir: Ir, v: Valuation, n: int)
    requires AllSolved(ir)
    ensures Covers(ReduceBranches(ir), v) <==> Covers(ir, v)
    ensures Agrees(ReduceBranches(ir), v, n) <==> Agrees(ir, v, n)
  {
    if ir != [] {
      hide Deduce; hide ReducePoly;
      var (c, affs) := Deduce(ir[0].0);
      ReduceBranchesMeaning(ir[1..], v, n);
      FirstMeaning(ir, v, n);
      DeducePreserves(ir[0].0, v);
      if c.Conjunction? {
        ConsMeaning((c, ReducePoly(affs, ir[0].1)), ReduceBranches(ir[1..]), v, n);
        if Holds(c, v) {
          ReducePolySame(affs, ir[0].1, v);
        }
      }
    }
  }

  lemma {:induction false} CollapseMeaning(ir: Ir, v: Valuation, n: int)
    ensures Covers(ir, v) ==> Covers(Collapse(ir), v)
    ensures Agrees(ir, v, n) ==> Agrees(Collapse(ir), v, n)
  {
    if ir != [] {
      CollapseMeaning(ir[1..], v, n);
      FirstMeaning(ir, v, n);
      GetTrivialSpec(ir[0].0, v);
      AlwaysMeaning(ir[0].1, v);
      ConsMeaning(ir[0], Collapse(ir[1..]), v, n);
    }
  }

  /** reduce keeps "some branch holds, and every branch that holds gives the value". */
  lemma ReduceMeaning(ir: Ir, v: Valuation, n: int)
    requires AllSolved(ir) && Represents(ir, v, n)
    ensures Represents(Reduce(ir), v, n)
  {
    ReduceBranchesMeaning(ir, v, n);
    CollapseMeaning(ReduceBranches(ir), v, n);
  }

  // ---------------------------------------------------------------- equal_mod_branches

  function Forget(affs: seq<Affectation>): (fs: seq<Affectation>)
    ensures |fs| == |affs|
    ensures forall i :: 0 <= i < |fs| ==> fs[i] == Affectation(affs[i].x, affs[i].c, None)
  {
    if affs == [] then [] else [Affectation(affs[0].x, affs[0].c, None)] + Forget(affs[1..])
  }

  ghost predicate EqualBranches(b1: Branch, b2: Branch) {
    var equality := Conjunction(map[AddPolys(b1.1, PolyNeg(b2.1)) := Null]);
    var (c, affs) := Deduce(CtntsAnd(b1.0, b2.0));
    c.Conjunction? && ReduceCtnts(Forget(affs), equality) == CTNTS_TRUE
  }

  ghost predicate EqualModBranches(ir1: Ir, ir2: Ir) {
    forall b1, b2 :: b1 in ir1 && b2 in ir2 ==> EqualBranches(b1, b2)
  }

  ghost predicate HarmlessPairs(ir1: Ir, ir2: Ir) {
    forall b1, b2 :: b1 in ir1 && b2 in ir2 ==> HarmlessFactors(CtntsAnd(b1.0, b2.0))
  }

  lemma EqualBranchesMeaning(b1: Branch, b2: Branch, v: Valuation)
    requires EqualBranches(b1, b2) && HarmlessFactors(CtntsAnd(b1.0, b2.0))
    requires Holds(b1.0, v) && Holds(b2.0, v)
    ensures PolyValue(b1.1, v) == PolyValue(b2.1, v)
  {
    hide Deduce; hide ReduceCtnts; hide AddPolys; hide PolyNeg; hide HarmlessFactors; hide CtntsAnd;
    var both := CtntsAnd(b1.0, b2.0);
    var p := AddPolys(b1.1, PolyNeg(b2.1));
    var affs := Deduce(both).1;
    var fs := Forget(affs);
    CtntsAndSpec(b1.0, b2.0, v);
    HarmlessRespected(both, v);
    assert Respects(v, fs);
    assert Holds(CTNTS_TRUE, v);
    ReduceCtntsSpec(fs, Conjunction(map[p := Null]), v);
    assert p in map[p := Null];
    assert HoldsReduced(fs, p, Null, v);
    ReducePolySame(fs, p, v);
    AddPolysValue(b1.1, PolyNeg(b2.1), v);
    NegValue(b2.1, v);
  }

  /** A positive answer on two disjunctions means that they represent the same value. */
  lemma EqualModBranchesMeaning(ir1: Ir, ir2: Ir, v: Valuation, n1: int, n2: int)
    requires EqualModBranches(ir1, ir2) && HarmlessPairs(ir1, ir2)
    requires Represents(ir1, v, n1) && Represents(ir2, v, n2)
    ensures n1 == n2
  {
    var b1 :| b1 in ir1 && Holds(b1.0, v);
    var b2 :| b2 in ir2 && Holds(b2.0, v);
    EqualBranchesMeaning(b1, b2, v);
  }

  /** equal_in_env; expressions outside the compiled fragment give false. */
  ghost predicate EqualInEnv(env: Env, e1: Expr, e2: Expr)
    requires DeclaredInOrder(env)
  {
    var ir1, ir2 := Compile(env, e1), Compile(env, e2);
    ir1.Some? && ir2.Some? && EqualModBranches(Reduce(ir1.value), Reduce(ir2.value))
  }

  /** What a caller has to check for the answer of equal_in_env to be reliable. */
  ghost predicate Reliable(env: Env, e1: Expr, e2: Expr)
    requires DeclaredInOrder(env)
  {
    var ir1, ir2 := Compile(env, e1), Compile(env, e2);
    ir1.Some? && ir2.Some? ==>
      AllSolved(ir1.value) && AllSolved(ir2.value) && HarmlessPairs(Reduce(ir1.value), Reduce(ir2.value))
  }

  /** If equal_in_env answers true, the expressions have the same value at every valuation. */
  lemma EqualInEnvSound(env: Env, e1: Expr, e2: Expr, v: Valuation)
    requires DeclaredInOrder(env) && Consistent(env, v)
    requires EqualInEnv(env, e1, e2) && Reliable(env, e1, e2)
    ensures ValueIn(env, e1, v).Some? && ValueIn(env, e1, v) == ValueIn(env, e2, v)
  {
    hide Compile; hide Reduce; hide EqualModBranches; hide HarmlessPairs;
    var ir1, ir2 := Compile(env, e1).value, Compile(env, e2).value;
    CompileMeaning(env, e1, v);
    CompileMeaning(env, e2, v);
    var n1 :| ValueIn(env, e1, v) == Some(LInt(n1)) && Represents(ir1, v, n1);
    var n2 :| ValueIn(env, e2, v) == Some(LInt(n2)) && Represents(ir2, v, n2);
    ReduceMeaning(ir1, v, n1);
    ReduceMeaning(ir2, v, n2);
    EqualModBranchesMeaning(Reduce(ir1), Reduce(ir2), v, n1, n2);
  }
}
