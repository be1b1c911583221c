/** Equations read off constraints, and their use on the constraints themselves (deduce_equations). */
module Equations {
  import opened Prelude
  import opened Polynomial
  import opened Constraint
  import opened Substitution

  datatype MonoKind = KConstant | KVar(x: Atom) | KOther

  /** mono_get_linear */
  ghost function KindOf(m: Mono): MonoKind {
    var m' := map x | x in m && m[x] != 0 :: m[x];
    if m' == map[] then KConstant
    else if |m'| == 1 && m'[Pick(m')] == 1 then KVar(Pick(m'))
    else KOther
  }

  /** The fold of poly_get_linear; None is the NotLinear exception. */
  ghost function LinearFold(rest: Poly, o: Option<Atom>, c: int): Option<(Option<Atom>, int)>
    decreases |rest|
  {
    if rest == map[] then Some((o, c))
    else
      var m := Pick(rest);
      MinusSmaller(rest, m);
      match KindOf(m)
      case KConstant => LinearFold(rest - {m}, o, c - rest[m])
      case KVar(x) => if o.None? then LinearFold(rest - {m}, Some(x), c) else None
      case KOther => None
  }

  datatype Linear = NoEquation | Contradiction | Equation(x: Atom, c: int)

  /** poly_get_linear: reads p == 0 as x == c, whatever the factor of x in p. */
  ghost function GetLinear(p: Poly): Linear {
    match LinearFold(DropZeros(p), None, 0)
    case None => NoEquation
    case Some((None, c)) => if c != 0 then Contradiction else NoEquation
    case Some((Some(x), c)) => Equation(x, c)
  }

  lemma {:induction false} MonoDropZeros(m: Mono, v: Valuation)
    ensures MonoValue(map x | x in m && m[x] != 0 :: m[x], v) == MonoValue(m, v)
    decreases |m|
  {
    var m' := map x | x in m && m[x] != 0 :: m[x];
    if m == map[] {
      assert m' == m;
    } else {
      var x := Pick(m);
      var n := m - {x};
      var n' := map x | x in n && n[x] != 0 :: n[x];
      MinusSmaller(m, x);
      MonoDropZeros(n, v);
      if m[x] != 0 {
        MonoTake(m', x, v);
        assert m' - {x} == n';
      } else {
        assert m' == n';
        assert Power(v(x), m[x]) == 1;
      }
    }
  }

  lemma KindValue(m: Mono, v: Valuation)
    ensures KindOf(m).KConstant? ==> MonoValue(m, v) == 1
    ensures KindOf(m).KVar? ==> MonoValue(m, v) == v(KindOf(m).x)
  {
    MonoDropZeros(m, v);
    EmptyValues(v);
    var m' := map x | x in m && m[x] != 0 :: m[x];
    if KindOf(m).KVar? {
      var x := Pick(m');
      MinusSmaller(m', x);
      assert m' - {x} == map[];
      assert m' == map[x := 1];
      LinearMonoValue(x, v);
    }
  }

  /** At every valuation p is f * x - c. */
  ghost predicate IsLinear(p: Poly, f: int, x: Atom, c: int) {
    forall v :: PolyValue(p, v) == f * v(x) - c
  }

  /** The factor that poly_get_linear drops: that of the first linear monomial. */
  ghost function FactorFold(rest: Poly): int
    decreases |rest|
  {
    if rest == map[] then 0
    else
      var m := Pick(rest);
      MinusSmaller(rest, m);
      if KindOf(m).KVar? then rest[m] else FactorFold(rest - {m})
  }

  ghost function Factor(p: Poly): int {
    FactorFold(DropZeros(p))
  }

  lemma {:induction false} LinearFoldValue(rest: Poly, o: Option<Atom>, c: int, v: Valuation)
    requires LinearFold(rest, o, c).Some?
    ensures var (o', c') := LinearFold(rest, o, c).value;
            && (o.Some? ==> o' == o)
            && PolyValue(rest, v) == (if o.None? && o'.Some? then FactorFold(rest) * v(o'.value) else 0) + c - c'
    decreases |rest|
  {
    hide MonoValue; hide KindOf; hide PolyValue;
    EmptyValues(v);
    if rest != map[] {
      var m := Pick(rest);
      MinusSmaller(rest, m);
      KindValue(m, v);
      PolyTake(rest, m, v);
      match KindOf(m)
      case KConstant => LinearFoldValue(rest - {m}, o, c - rest[m], v);
      case KVar(x) => LinearFoldValue(rest - {m}, Some(x), c, v);
    }
  }

  /** What p is when poly_get_linear finds an equation or a contradiction. */
  lemma GetLinearMeaning(p: Poly)
    ensures GetLinear(p).Equation? ==> IsLinear(p, Factor(p), GetLinear(p).x, GetLinear(p).c)
    ensures GetLinear(p).Contradiction? ==> forall v :: PolyValue(p, v) != 0
  {
    var q := DropZeros(p);
    if LinearFold(q, None, 0).Some? {
      forall v
        ensures var (o, c) := LinearFold(q, None, 0).value;
                PolyValue(p, v) == (if o.Some? then FactorFold(q) * v(o.value) else 0) - c
      {
        DropZerosValue(p, v);
        LinearFoldValue(q, None, 0, v);
      }
    }
  }

  lemma {:induction false} FactorNotZero(rest: Poly, c: int)
    requires (forall m :: m in rest ==> rest[m] != 0) && LinearFold(rest, None, c).Some?
    ensures LinearFold(rest, None, c).value.0.Some? ==> FactorFold(rest) != 0
    decreases |rest|
  {
    if rest != map[] {
      hide KindOf;
      var m := Pick(rest);
      MinusSmaller(rest, m);
      if KindOf(m).KConstant? {
        FactorNotZero(rest - {m}, c - rest[m]);
      }
    }
  }

  lemma EquationFactor(p: Poly)
    requires GetLinear(p).Equation?
    ensures Factor(p) != 0
  {
    FactorNotZero(DropZeros(p), 0);
  }

  /** The equation read off p is right exactly when the dropped factor cannot matter. */
  lemma EquationRightIff(p: Poly)
    requires GetLinear(p).Equation?
    ensures var Equation(x, c) := GetLinear(p);
            Factor(p) != 0
            && ((forall v :: PolyValue(p, v) == 0 ==> v(x) == c) <==> Factor(p) == 1 || c == 0 || c % Factor(p) != 0)
  {
    hide GetLinear; hide Factor; hide PolyValue;
    EquationFactor(p);
    var Equation(x, c) := GetLinear(p);
    var f := Factor(p);
    GetLinearMeaning(p);
    if f == 1 || c == 0 || c % f != 0 {
      forall v: Valuation | PolyValue(p, v) == 0
        ensures v(x) == c
      {
        OnlySolution(f, v(x), c);
      }
    } else {
      var w: Valuation := _ => c / f;
      assert PolyValue(p, w) == f * (c / f) - c == 0;
      NotASolution(f, c / f, c);
    }
  }

  lemma NonZeroProduct(a: int, b: int)
    ensures a != 0 && b != 0 ==> a * b != 0
  {}

  lemma OnlySolution(f: int, n: int, c: int)
    requires f != 0 && f * n == c && (f == 1 || c == 0 || c % f != 0)
    ensures n == c
  {
    MultipleRest(f, n);
    NonZeroProduct(f, n);
  }

  lemma MultipleRest(f: int, n: int)
    requires f != 0
    ensures (f * n) % f == 0
  {
    var q, r := (f * n) / f, (f * n) % f;
    assert f * (n - q) == r;
    SmallMultiple(f, n - q, r);
  }

  lemma SmallMultiple(f: int, k: int, r: int)
    requires f != 0 && f * k == r && 0 <= r < (if f > 0 then f else -f)
    ensures r == 0
  {}

  lemma NotASolution(f: int, q: int, c: int)
    requires f != 1 && c != 0 && f * q == c
    ensures q != c
  {
    NonZeroProduct(f - 1, c);
    assert (f - 1) * c == f * c - c;
  }

  // ---------------------------------------------------------------- deduce_equations

  /** The fold of deduce_equations; None is the interrupt of a contradictory constant. */
  ghost function DeduceFold(rest: map<Poly, Sign>, affs: seq<Affectation>): Option<seq<Affectation>>
    decreases |rest|
  {
    if rest == map[] then Some(affs)
    else
      var p := Pick(rest);
      MinusSmaller(rest, p);
      if rest[p] != Null then DeduceFold(rest - {p}, affs)
      else
        match GetLinear(p)
        case NoEquation => DeduceFold(rest - {p}, affs)
        case Contradiction => None
        case Equation(x, c) => DeduceFold(rest - {p}, [Affectation(x, c, Some(p))] + affs)
  }

  ghost function Deduce(c: Ctnts): (Ctnts, seq<Affectation>) {
    if c.Bottom? then (Bottom, [])
    else
      match DeduceFold(c.signs, [])
      case None => (Bottom, [])
      case Some(affs) => (ReduceCtnts(affs, c), affs)
  }

  /** a was read off one of the null constraints. */
  ghost predicate ReadOff(signs: map<Poly, Sign>, a: Affectation) {
    a.from.Some? && a.from.value in signs && signs[a.from.value] == Null
    && GetLinear(a.from.value) == Equation(a.x, a.c)
  }

  lemma {:induction false} DeduceFoldSpec(rest: map<Poly, Sign>, affs: seq<Affectation>)
    ensures var r := DeduceFold(rest, affs);
            if r.Some? then forall a :: a in r.value <==> a in affs || ReadOff(rest, a)
            else exists p :: p in rest && rest[p] == Null && GetLinear(p) == Contradiction
    decreases |rest|
  {
    if rest != map[] {
      hide GetLinear;
      var p := Pick(rest);
      MinusSmaller(rest, p);
      if rest[p] != Null || GetLinear(p) == NoEquation {
        DeduceFoldSpec(rest - {p}, affs);
      } else if GetLinear(p).Equation? {
        var a := Affectation(GetLinear(p).x, GetLinear(p).c, Some(p));
        DeduceFoldSpec(rest - {p}, [a] + affs);
      }
    }
  }

  /** p is a null constraint that poly_get_linear reads as an equation. */
  ghost predicate IsEquation(signs: map<Poly, Sign>, p: Poly) {
    p in signs && signs[p] == Null && GetLinear(p).Equation?
  }

  /** The equation has no integer solution. */
  ghost predicate Unsolvable(p: Poly)
    requires GetLinear(p).Equation?
  {
    Factor(p) != 0 && GetLinear(p).c % Factor(p) != 0
  }

  /** Where the equation holds its atom has the value read off, and it does hold there. */
  ghost predicate Exact(p: Poly)
    requires GetLinear(p).Equation?
  {
    Factor(p) == 1 || GetLinear(p).c == 0
  }

  /** The value that q gives to its atom does not satisfy p. */
  ghost predicate Refutes(q: Poly, p: Poly)
    requires GetLinear(p).Equation? && GetLinear(q).Equation?
  {
    GetLinear(q).x == GetLinear(p).x ==> Factor(p) * GetLinear(q).c != GetLinear(p).c
  }

  ghost predicate Hopeless(signs: map<Poly, Sign>) {
    exists p :: IsEquation(signs, p) && Unsolvable(p)
  }

  /** The values read off are right wherever the constraints hold: they are exact, or the constraints never hold. */
  ghost predicate HarmlessFactors(c: Ctnts) {
    c.Conjunction? ==> Hopeless(c.signs) || forall p :: IsEquation(c.signs, p) ==> Exact(p)
  }

  /**
   * Some equation has no integer solution; or all are exact and free of zero factors, and none satisfies another
   * one for the same atom.
   */
  ghost predicate Solved(c: Ctnts) {
    c.Conjunction? ==>
      || Hopeless(c.signs)
      || (&& (forall p :: IsEquation(c.signs, p) ==> Exact(p) && DropZeros(p) == p)
          && (forall p, q :: IsEquation(c.signs, p) && IsEquation(c.signs, q) && p != q ==> Refutes(q, p)))
  }

  /** The equations that deduce_equations finds. */
  ghost predicate Deduced(c: Ctnts, affs: seq<Affectation>) {
    c.Conjunction? && forall a :: a in affs <==> ReadOff(c.signs, a)
  }

  lemma DeduceSpec(c: Ctnts, v: Valuation)
    ensures var (c', affs) := Deduce(c);
            || (c' == Bottom && affs == [] && !Holds(c, v))
            || (Deduced(c, affs) && c' == ReduceCtnts(affs, c))
  {
    if c.Conjunction? {
      DeduceFoldSpec(c.signs, []);
      if DeduceFold(c.signs, []).None? {
        var p :| p in c.signs && c.signs[p] == Null && GetLinear(p) == Contradiction;
        GetLinearMeaning(p);
      }
    }
  }

  /** No value in the place of the atom satisfies an equation without integer solution, in the constraints or reduced. */
  lemma HopelessNever(c: Ctnts, affs: seq<Affectation>, v: Valuation)
    requires c.Conjunction? && Hopeless(c.signs)
    ensures !Holds(c, v) && !AllHoldReduced(affs, c.signs, v)
  {
    hide GetLinear; hide Factor; hide PolyValue;
    var p :| IsEquation(c.signs, p) && Unsolvable(p);
    var w := Override(Others(affs, DropZeros(p)), v);
    GetLinearMeaning(p);
    MultipleRest(Factor(p), v(GetLinear(p).x));
    MultipleRest(Factor(p), w(GetLinear(p).x));
    assert !HoldsReduced(affs, p, c.signs[p], v);
  }

  /** With harmless factors the deduced equations are true wherever the constraints hold. */
  lemma HarmlessRespected(c: Ctnts, v: Valuation)
    requires HarmlessFactors(c) && Holds(c, v)
    ensures Respects(v, Deduce(c).1)
  {
    hide GetLinear; hide Factor; hide Deduce; hide Hopeless;
    var affs := Deduce(c).1;
    DeduceSpec(c, v);
    if Hopeless(c.signs) {
      HopelessNever(c, affs, v);
    } else {
      forall a | a in affs
        ensures v(a.x) == a.c
      {
        assert ReadOff(c.signs, a) && IsEquation(c.signs, a.from.value);
        EquationRightIff(a.from.value);
      }
    }
  }

  /** An equation is not lost: the others cannot turn it into a trivial constraint. */
  lemma EquationKept(c: Ctnts, affs: seq<Affectation>, a: Affectation, v: Valuation)
    requires Solved(c) && Deduced(c, affs) && !Hopeless(c.signs) && a in affs
    requires HoldsReduced(affs, a.from.value, Null, v)
    ensures v(a.x) == a.c
  {
    hide GetLinear; hide Factor; hide PolyValue; hide Hopeless;
    var p := a.from.value;
    var os := Others(affs, DropZeros(p));
    assert ReadOff(c.signs, a) && IsEquation(c.signs, p);
    GetLinearMeaning(p);
    EquationRightIff(p);
    AssignedSome(os, a.x, v(a.x));
    OthersSubset(affs, DropZeros(p));
    var n := Assigned(os, a.x, v(a.x));
    assert Factor(p) * n == a.c;
    forall b | b in os && b.x == a.x
      ensures b.c != n
    {
      assert ReadOff(c.signs, b) && IsEquation(c.signs, b.from.value);
    }
    OnlySolution(Factor(p), n, a.c);
  }

  /** deduce_equations changes no constraint's truth, and its equations are true where the constraints hold. */
  lemma DeducePreserves(c: Ctnts, v: Valuation)
    requires Solved(c)
    ensures var (c', affs) := Deduce(c);
            (Holds(c', v) <==> Holds(c, v)) && (Holds(c, v) ==> Respects(v, affs))
  {
    hide Deduce; hide Hopeless; hide Solved;
    var (c', affs) := Deduce(c);
    DeduceSpec(c, v);
    if Deduced(c, affs) {
      ReduceCtntsSpec(affs, c, v);
      if Hopeless(c.signs) {
        HopelessNever(c, affs, v);
      } else {
        SolvedPreserves(c, affs, v);
      }
    }
  }

  lemma SolvedPreserves(c: Ctnts, affs: seq<Affectation>, v: Valuation)
    requires Solved(c) && Deduced(c, affs) && !Hopeless(c.signs)
    ensures AllHoldReduced(affs, c.signs, v) <==> Holds(c, v)
    ensures Holds(c, v) ==> Respects(v, affs)
  {
    hide GetLinear; hide Factor; hide PolyValue; hide Hopeless;
    if Holds(c, v) || AllHoldReduced(affs, c.signs, v) {
      forall a | a in affs
        ensures v(a.x) == a.c
      {
        assert ReadOff(c.signs, a) && IsEquation(c.signs, a.from.value);
        if Holds(c, v) {
          EquationRightIff(a.from.value);
        } else {
          assert HoldsReduced(affs, a.from.value, Null, v);
          EquationKept(c, affs, a, v);
        }
      }
      forall p | p in c.signs
        ensures HoldsReduced(affs, p, c.signs[p], v) <==> Satisfies(PolyValue(p, v), c.signs[p])
      {
        ReducePolySame(affs, p, v);
      }
    }
  }
}
