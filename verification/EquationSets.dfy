/** When deduce_equations is right on sets of equations (asllib/StaticInterpreter.ml, Normalize). */
module EquationSets {
  import opened Prelude
  import opened Polynomial
  import opened Constraint
  import opened Substitution
  import opened Equations

  /** The conjunction consists of equations only. */
  ghost predicate OnlyEquations(c: Ctnts) {
    c.Conjunction? && forall p :: p in c.signs ==> IsEquation(c.signs, p)
  }

  ghost predicate SameAtom(p: Poly, q: Poly)
    requires GetLinear(p).Equation? && GetLinear(q).Equation?
  {
    GetLinear(p).x == GetLinear(q).x
  }

  /** No two equations are about the same atom. */
  ghost predicate OneEach(c: Ctnts)
    requires OnlyEquations(c)
  {
    forall p, q :: p in c.signs && q in c.signs && p != q ==> !SameAtom(p, q)
  }

  ghost predicate AllCanonical(c: Ctnts)
    requires OnlyEquations(c)
  {
    forall p :: p in c.signs ==> DropZeros(p) == p
  }

  ghost predicate AllExact(c: Ctnts)
    requires OnlyEquations(c)
  {
    forall p :: p in c.signs ==> Exact(p)
  }

  // ---------------------------------------------------------------- what deduction does to equations

  ghost predicate SameTruth(c: Ctnts, v: Valuation) {
    Holds(Deduce(c).0, v) <==> Holds(c, v)
  }

  /** Deduction keeps the truth of c at v, and its equations are true there if c holds. */
  ghost predicate Kept(c: Ctnts, v: Valuation) {
    SameTruth(c, v) && (Holds(c, v) ==> Respects(v, Deduce(c).1))
  }

  /** n satisfies p in the place of its atom. */
  ghost predicate Satisfied(p: Poly, n: int)
    requires GetLinear(p).Equation?
  {
    Factor(p) * n == GetLinear(p).c
  }

  /** The value of the atom of p once p is reduced. */
  ghost function Reduced(affs: seq<Affectation>, p: Poly, v: Valuation): int
    requires GetLinear(p).Equation?
  {
    Assigned(Others(affs, DropZeros(p)), GetLinear(p).x, v(GetLinear(p).x))
  }

  lemma TruthAt(c: Ctnts, v: Valuation)
    requires OnlyEquations(c)
    ensures Holds(c, v) <==> forall p :: p in c.signs ==> Satisfied(p, v(GetLinear(p).x))
  {
    hide GetLinear; hide Factor; hide PolyValue;
    forall p | p in c.signs
      ensures Satisfies(PolyValue(p, v), c.signs[p]) <==> Satisfied(p, v(GetLinear(p).x))
    {
      assert IsEquation(c.signs, p);
      GetLinearMeaning(p);
    }
  }

  lemma Deduction(c: Ctnts)
    requires OnlyEquations(c)
    ensures Deduced(c, Deduce(c).1) && Deduce(c).0 == ReduceCtnts(Deduce(c).1, c)
  {
    hide GetLinear; hide ReduceCtnts;
    DeduceFoldSpec(c.signs, []);
    forall p | p in c.signs
      ensures GetLinear(p).Equation?
    {
      assert IsEquation(c.signs, p);
    }
  }

  lemma ReducedAt(c: Ctnts, v: Valuation)
    requires OnlyEquations(c)
    ensures Holds(Deduce(c).0, v) <==> forall p :: p in c.signs ==> Satisfied(p, Reduced(Deduce(c).1, p, v))
  {
    hide GetLinear; hide Factor; hide PolyValue; hide Deduce;
    Deduction(c);
    var affs := Deduce(c).1;
    ReduceCtntsSpec(affs, c, v);
    forall p | p in c.signs
      ensures HoldsReduced(affs, p, c.signs[p], v) <==> Satisfied(p, Reduced(affs, p, v))
    {
      assert IsEquation(c.signs, p);
      GetLinearMeaning(p);
    }
  }

  /** The equations used on p: all of the same atom, but not p itself when it has no zero factor. */
  lemma OthersOf(c: Ctnts, p: Poly, a: Affectation)
    requires OnlyEquations(c) && p in c.signs
    ensures a in Others(Deduce(c).1, DropZeros(p)) <==> ReadOff(c.signs, a) && a.from.value != DropZeros(p)
  {
    hide GetLinear; hide Deduce;
    Deduction(c);
    OthersSubset(Deduce(c).1, DropZeros(p));
  }

  lemma {:induction false} AssignedDefault(affs: seq<Affectation>, a: Affectation, d: int, e: int)
    requires a in affs
    ensures Assigned(affs, a.x, d) == Assigned(affs, a.x, e)
  {
    if affs[0].x != a.x {
      AssignedDefault(affs[1..], a, d, e);
    }
  }

  lemma {:induction false} AssignedNone(affs: seq<Affectation>, x: Atom, d: int)
    requires forall a :: a in affs ==> a.x != x
    ensures Assigned(affs, x, d) == d
  {
    AssignedSome(affs, x, d);
  }

  /** Another equation for the atom of p is used on p; which value the atom has no longer matters. */
  ghost predicate Decoupled(c: Ctnts, p: Poly)
    requires OnlyEquations(c) && p in c.signs
  {
    exists q :: q in c.signs && SameAtom(p, q) && q != DropZeros(p)
  }

  lemma DecoupledSame(c: Ctnts, p: Poly, v: Valuation, w: Valuation)
    requires OnlyEquations(c) && p in c.signs && Decoupled(c, p)
    ensures Reduced(Deduce(c).1, p, v) == Reduced(Deduce(c).1, p, w)
  {
    hide GetLinear; hide Deduce; hide DropZeros;
    var q :| q in c.signs && SameAtom(p, q) && q != DropZeros(p);
    assert IsEquation(c.signs, q);
    var a := Affectation(GetLinear(q).x, GetLinear(q).c, Some(q));
    OthersOf(c, p, a);
    AssignedDefault(Others(Deduce(c).1, DropZeros(p)), a, v(a.x), w(a.x));
  }

  lemma CoupledSame(c: Ctnts, p: Poly, v: Valuation)
    requires OnlyEquations(c) && p in c.signs && !Decoupled(c, p)
    ensures Reduced(Deduce(c).1, p, v) == v(GetLinear(p).x)
  {
    hide GetLinear; hide Deduce; hide DropZeros;
    var os := Others(Deduce(c).1, DropZeros(p));
    forall a | a in os
      ensures a.x != GetLinear(p).x
    {
      OthersOf(c, p, a);
    }
    AssignedNone(os, GetLinear(p).x, v(GetLinear(p).x));
  }

  /** Nothing is decoupled exactly when atoms are distinct and no factor is zero. */
  lemma DecoupledIff(c: Ctnts)
    requires OnlyEquations(c)
    ensures (forall p :: p in c.signs ==> !Decoupled(c, p)) <==> OneEach(c) && AllCanonical(c)
  {
    hide GetLinear; hide DropZeros;
    if forall p :: p in c.signs ==> !Decoupled(c, p) {
      forall p | p in c.signs
        ensures DropZeros(p) == p
      {
        assert !(SameAtom(p, p) && p != DropZeros(p));
      }
      forall p, q | p in c.signs && q in c.signs && p != q
        ensures !SameAtom(p, q)
      {
        assert !(SameAtom(p, q) && q != DropZeros(p));
      }
    }
  }

  // ---------------------------------------------------------------- the exact conditions

  /** Distinct atoms and no zero factors: every equation is kept as it is. */
  lemma CoupledKeeps(c: Ctnts, v: Valuation)
    requires OnlyEquations(c) && OneEach(c) && AllCanonical(c)
    ensures SameTruth(c, v)
  {
    hide Deduce; hide GetLinear; hide Satisfied; hide Decoupled; hide Reduced;
    DecoupledIff(c);
    TruthAt(c, v);
    ReducedAt(c, v);
    forall p | p in c.signs
      ensures Reduced(Deduce(c).1, p, v) == v(GetLinear(p).x)
    {
      CoupledSame(c, p, v);
    }
  }

  /** If one equation is decoupled, so are all of its atom, and the reduced constraints leave the atom free. */
  lemma DecoupledSpreads(c: Ctnts, p: Poly, r: Poly)
    requires OnlyEquations(c) && p in c.signs && Decoupled(c, p) && r in c.signs && SameAtom(p, r)
    ensures Decoupled(c, r)
  {
    hide GetLinear; hide DropZeros;
    var q :| q in c.signs && SameAtom(p, q) && q != DropZeros(p);
    DropZerosAgain(r);
    DropZerosAgain(p);
    assert SameAtom(r, p) && SameAtom(r, q);
    assert p != DropZeros(r) || q != DropZeros(r);
  }

  lemma DropZerosAgain(p: Poly)
    ensures DropZeros(DropZeros(p)) == DropZeros(p)
  {}

  lemma DecoupledLoses(c: Ctnts, p: Poly, w: Valuation)
    requires OnlyEquations(c) && p in c.signs && Decoupled(c, p) && Holds(c, w)
    ensures exists v :: !SameTruth(c, v)
  {
    hide Deduce; hide GetLinear; hide Decoupled; hide Reduced; hide Holds; hide Factor;
    var x := GetLinear(p).x;
    var v: Valuation := y => if y == x then w(y) + 1 else w(y);
    TruthAt(c, w);
    TruthAt(c, v);
    ReducedAt(c, w);
    ReducedAt(c, v);
    forall r | r in c.signs
      ensures Reduced(Deduce(c).1, r, v) == Reduced(Deduce(c).1, r, w)
    {
      if SameAtom(p, r) {
        DecoupledSpreads(c, p, r);
        DecoupledSame(c, r, v, w);
      } else {
        ReducedDepends(Deduce(c).1, r, v, w);
      }
    }
    assert IsEquation(c.signs, p);
    EquationRightIff(p);
    assert Factor(p) * (w(x) + 1) == Factor(p) * w(x) + Factor(p);
    assert !SameTruth(c, w) || !SameTruth(c, v);
  }

  lemma ReducedDepends(affs: seq<Affectation>, p: Poly, v: Valuation, w: Valuation)
    requires GetLinear(p).Equation? && v(GetLinear(p).x) == w(GetLinear(p).x)
    ensures Reduced(affs, p, v) == Reduced(affs, p, w)
  {}

  /** For equations with a common solution: their truth is kept iff atoms are distinct and no factor is zero. */
  lemma TruthKeptIff(c: Ctnts, w: Valuation)
    requires OnlyEquations(c) && Holds(c, w)
    ensures (forall v :: SameTruth(c, v)) <==> OneEach(c) && AllCanonical(c)
  {
    hide SameTruth; hide Holds; hide Decoupled; hide OneEach; hide AllCanonical;
    DecoupledIff(c);
    if OneEach(c) && AllCanonical(c) {
      forall v
        ensures SameTruth(c, v)
      {
        CoupledKeeps(c, v);
      }
    } else {
      var p :| p in c.signs && Decoupled(c, p);
      DecoupledLoses(c, p, w);
    }
  }

  /** For equations with a common solution: the values read off are right there iff every factor is one or value zero. */
  lemma RespectedIff(c: Ctnts, w: Valuation)
    requires OnlyEquations(c) && Holds(c, w)
    ensures Respects(w, Deduce(c).1) <==> AllExact(c)
  {
    hide Deduce; hide GetLinear; hide Factor; hide Holds;
    Deduction(c);
    TruthAt(c, w);
    var affs := Deduce(c).1;
    forall p | p in c.signs
      ensures Exact(p) <==> w(GetLinear(p).x) == GetLinear(p).c
    {
      assert IsEquation(c.signs, p) && Satisfied(p, w(GetLinear(p).x));
      EquationRightIff(p);
      var f, n, k := Factor(p), w(GetLinear(p).x), GetLinear(p).c;
      MultipleRest(f, n);
      if Exact(p) {
        OnlySolution(f, n, k);
      } else {
        NotASolution(f, n, k);
      }
    }
    if Respects(w, affs) {
      forall p | p in c.signs
        ensures Exact(p)
      {
        assert IsEquation(c.signs, p);
        assert ReadOff(c.signs, Affectation(GetLinear(p).x, GetLinear(p).c, Some(p)));
      }
    }
  }

  /**
   * For equations with a common solution, whatever their atoms: deduction is right everywhere iff the atoms are
   * distinct, no factor is zero, and every factor of an atom is one or its value zero.
   */
  lemma SolvableKeptIff(c: Ctnts, w: Valuation)
    requires OnlyEquations(c) && Holds(c, w)
    ensures (forall v :: Kept(c, v)) <==> OneEach(c) && AllCanonical(c) && AllExact(c)
  {
    hide SameTruth; hide Holds; hide OneEach; hide AllCanonical; hide AllExact; hide Respects; hide Deduce;
    TruthKeptIff(c, w);
    RespectedIff(c, w);
    if OneEach(c) && AllCanonical(c) && AllExact(c) {
      forall v
        ensures Kept(c, v)
      {
        if Holds(c, v) {
          RespectedIff(c, v);
        }
      }
    } else {
      if forall v :: Kept(c, v) {
        assert Kept(c, w);
        forall v
          ensures SameTruth(c, v)
        {
          assert Kept(c, v);
        }
      }
    }
  }

  // ---------------------------------------------------------------- distinct atoms

  ghost predicate SomeUnsolvable(c: Ctnts)
    requires OnlyEquations(c)
  {
    exists p :: p in c.signs && Unsolvable(p)
  }

  /** Equations for distinct atoms have a common solution iff each has one. */
  lemma CommonSolution(c: Ctnts) returns (w: Valuation)
    requires OnlyEquations(c) && OneEach(c) && !SomeUnsolvable(c)
    ensures Holds(c, w)
  {
    hide GetLinear; hide Factor; hide Holds;
    w := Solution(c);
    TruthAt(c, w);
    forall p | p in c.signs
      ensures Satisfied(p, w(GetLinear(p).x))
    {
      SolutionAt(c, p);
    }
  }

  ghost function Quotient(p: Poly): int
    requires GetLinear(p).Equation?
  {
    if Factor(p) == 0 then 0 else GetLinear(p).c / Factor(p)
  }

  ghost predicate HasEquation(c: Ctnts, x: Atom)
    requires OnlyEquations(c)
  {
    exists p :: p in c.signs && GetLinear(p).x == x
  }

  ghost function Solution(c: Ctnts): Valuation
    requires OnlyEquations(c)
  {
    x => if HasEquation(c, x) then SolutionOf(c, x) else 0
  }

  ghost function SolutionOf(c: Ctnts, x: Atom): int
    requires OnlyEquations(c) && HasEquation(c, x)
  {
    var p :| p in c.signs && GetLinear(p).x == x;
    Quotient(p)
  }

  lemma SolutionAt(c: Ctnts, p: Poly)
    requires OnlyEquations(c) && OneEach(c) && !SomeUnsolvable(c) && p in c.signs
    ensures Satisfied(p, Solution(c)(GetLinear(p).x))
  {
    hide GetLinear; hide Factor;
    assert IsEquation(c.signs, p) && !Unsolvable(p);
    EquationRightIff(p);
    var x := GetLinear(p).x;
    assert HasEquation(c, x);
    var q :| q in c.signs && GetLinear(q).x == x && SolutionOf(c, x) == Quotient(q);
    assert SameAtom(p, q);
    assert GetLinear(p).c == Factor(p) * Quotient(p);
  }

  /** An unsolvable equation stays unsolvable among equations for other atoms. */
  lemma UnsolvableKept(c: Ctnts, p: Poly, v: Valuation)
    requires OnlyEquations(c) && OneEach(c) && p in c.signs && Unsolvable(p)
    ensures !Holds(c, v) && !Holds(Deduce(c).0, v)
  {
    hide GetLinear; hide Factor; hide Holds; hide Deduce; hide Decoupled; hide Reduced;
    TruthAt(c, v);
    ReducedAt(c, v);
    assert IsEquation(c.signs, p);
    MultipleRest(Factor(p), v(GetLinear(p).x));
    MultipleRest(Factor(p), Reduced(Deduce(c).1, p, v));
  }

  /**
   * Equations for distinct atoms: deduction is right everywhere iff one of them has no integer solution, or all
   * are free of zero factors and have factor one or value zero.
   */
  lemma DistinctKeptIff(c: Ctnts)
    requires OnlyEquations(c) && OneEach(c)
    ensures (forall v :: Kept(c, v)) <==> SomeUnsolvable(c) || (AllCanonical(c) && AllExact(c))
    ensures (forall v :: SameTruth(c, v)) <==> SomeUnsolvable(c) || AllCanonical(c)
  {
    hide Holds; hide AllCanonical; hide AllExact; hide OneEach; hide SomeUnsolvable; hide Kept; hide SameTruth;
    if SomeUnsolvable(c) {
      forall v
        ensures Kept(c, v) && SameTruth(c, v)
      {
        SomeUnsolvableKept(c, v);
      }
    } else {
      var w := CommonSolution(c);
      SolvableKeptIff(c, w);
      TruthKeptIff(c, w);
    }
  }

  lemma SomeUnsolvableKept(c: Ctnts, v: Valuation)
    requires OnlyEquations(c) && OneEach(c) && SomeUnsolvable(c)
    ensures Kept(c, v) && SameTruth(c, v)
  {
    hide Holds; hide OneEach; hide Deduce; hide Unsolvable; hide Respects;
    var p :| p in c.signs && Unsolvable(p);
    UnsolvableKept(c, p, v);
  }

  // ---------------------------------------------------------------- the condition used for reduction

  lemma HopelessIff(c: Ctnts)
    requires OnlyEquations(c)
    ensures Hopeless(c.signs) <==> SomeUnsolvable(c)
  {
    hide Unsolvable; hide GetLinear;
    if SomeUnsolvable(c) {
      var p :| p in c.signs && Unsolvable(p);
      assert IsEquation(c.signs, p);
    }
  }

  /** Exact equations for one atom with a common solution satisfy each other. */
  lemma CommonNotRefuted(c: Ctnts, w: Valuation, p: Poly, q: Poly)
    requires OnlyEquations(c) && Holds(c, w) && p in c.signs && q in c.signs && SameAtom(p, q) && Exact(p) && Exact(q)
    ensures !Refutes(q, p)
  {
    hide GetLinear; hide Factor; hide Holds;
    TruthAt(c, w);
    assert Satisfied(p, w(GetLinear(p).x)) && Satisfied(q, w(GetLinear(q).x));
    assert IsEquation(c.signs, p) && IsEquation(c.signs, q);
    EquationRightIff(q);
    OnlySolution(Factor(q), w(GetLinear(q).x), GetLinear(q).c);
  }

  /**
   * The condition under which deduction and reduction are shown right is exact: for any equations on distinct atoms,
   * and for any equations with a common solution.
   */
  lemma SolvedIff(c: Ctnts)
    requires OnlyEquations(c) && (OneEach(c) || exists w :: Holds(c, w))
    ensures (forall v :: Kept(c, v)) <==> Solved(c)
  {
    hide Kept; hide Holds; hide SomeUnsolvable; hide Hopeless; hide GetLinear; hide Factor; hide DropZeros; hide Exact;
    HopelessIff(c);
    assert forall p :: IsEquation(c.signs, p) <==> p in c.signs;
    if OneEach(c) {
      DistinctKeptIff(c);
    } else {
      var w :| Holds(c, w);
      SolvableKeptIff(c, w);
      SolvableNotHopeless(c, w);
      if AllExact(c) {
        var p, q :| p in c.signs && q in c.signs && p != q && SameAtom(p, q);
        CommonNotRefuted(c, w, p, q);
      }
    }
  }

  lemma SolvableNotHopeless(c: Ctnts, w: Valuation)
    requires OnlyEquations(c) && Holds(c, w)
    ensures !Hopeless(c.signs)
  {
    hide Holds; hide Hopeless;
    if Hopeless(c.signs) {
      HopelessNever(c, [], w);
    }
  }
}
