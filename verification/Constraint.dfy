/** Sign constraints on polynomials and their conjunctions (asllib/StaticInterpreter.ml, Normalize). */
module Constraint {
  import opened Prelude
  import opened Polynomial

  datatype Sign = Null | StrictPositive | Positive | Negative | StrictNegative | NotNull

  datatype Ctnts = Conjunction(signs: map<Poly, Sign>) | Bottom

  const CTNTS_TRUE: Ctnts := Conjunction(map[])

  /** constant_satisfies */
  predicate Satisfies(c: int, s: Sign) {
    match s
    case Null => c == 0
    case NotNull => c != 0
    case Positive => c >= 0
    case StrictPositive => c > 0
    case Negative => c <= 0
    case StrictNegative => c < 0
  }

  /** sign_and; None stands for the interrupt that turns the conjunction into Bottom. */
  function SignAnd(s1: Sign, s2: Sign): Option<Sign> {
    match (s1, s2)
    case (Null, Null) => Some(Null)
    case (Null, Positive) => Some(Null)
    case (Positive, Null) => Some(Null)
    case (Negative, Null) => Some(Null)
    case (Null, Negative) => Some(Null)
    case (Negative, Positive) => Some(Null)
    case (Positive, Negative) => Some(Null)
    case (StrictPositive, StrictPositive) => Some(StrictPositive)
    case (StrictPositive, Positive) => Some(StrictPositive)
    case (Positive, StrictPositive) => Some(StrictPositive)
    case (Positive, NotNull) => Some(StrictPositive)
    case (NotNull, Positive) => Some(StrictPositive)
    case (StrictPositive, NotNull) => Some(StrictPositive)
    case (NotNull, StrictPositive) => Some(StrictPositive)
    case (Positive, Positive) => Some(Positive)
    case (Negative, Negative) => Some(Negative)
    case (NotNull, NotNull) => Some(NotNull)
    case (StrictNegative, StrictNegative) => Some(StrictNegative)
    case (StrictNegative, Negative) => Some(StrictNegative)
    case (Negative, StrictNegative) => Some(StrictNegative)
    case (Negative, NotNull) => Some(StrictNegative)
    case (NotNull, Negative) => Some(StrictNegative)
    case (NotNull, StrictNegative) => Some(StrictNegative)
    case (StrictNegative, NotNull) => Some(StrictNegative)
    case _ => None
  }

  lemma SignAndSpec(c: int, s1: Sign, s2: Sign)
    ensures Satisfies(c, s1) && Satisfies(c, s2) <==>
            SignAnd(s1, s2).Some? && Satisfies(c, SignAnd(s1, s2).value)
  {}

  ghost predicate Holds(c: Ctnts, v: Valuation) {
    c.Conjunction? && forall p :: p in c.signs ==> Satisfies(PolyValue(p, v), c.signs[p])
  }

  predicate Conflict(m: map<Poly, Sign>, n: map<Poly, Sign>, p: Poly) {
    p in m && p in n && SignAnd(m[p], n[p]).None?
  }

  function CtntsAnd(c1: Ctnts, c2: Ctnts): Ctnts {
    if c1.Bottom? || c2.Bottom? then Bottom
    else if exists p :: p in c1.signs && Conflict(c1.signs, c2.signs, p) then Bottom
    else
      Conjunction(map p | p in c1.signs.Keys + c2.signs.Keys ::
        if p in c1.signs && p in c2.signs then SignAnd(c1.signs[p], c2.signs[p]).value
        else if p in c1.signs then c1.signs[p] else c2.signs[p])
  }

  /** ctnts_and is conjunction at every valuation; it is Bottom only when no valuation satisfies both. */
  lemma CtntsAndSpec(c1: Ctnts, c2: Ctnts, v: Valuation)
    ensures Holds(CtntsAnd(c1, c2), v) <==> Holds(c1, v) && Holds(c2, v)
  {
    if c1.Conjunction? && c2.Conjunction? {
      forall p | p in c1.signs && p in c2.signs
        ensures Satisfies(PolyValue(p, v), c1.signs[p]) && Satisfies(PolyValue(p, v), c2.signs[p]) <==>
                !Conflict(c1.signs, c2.signs, p)
                && Satisfies(PolyValue(p, v), SignAnd(c1.signs[p], c2.signs[p]).value)
      {
        SignAndSpec(PolyValue(p, v), c1.signs[p], c2.signs[p]);
      }
    }
  }

  // ---------------------------------------------------------------- disjunctions

  ghost predicate AnyHolds(cs: seq<Ctnts>, v: Valuation) {
    exists c :: c in cs && Holds(c, v)
  }

  /** disjunction_cross ctnts_and, and the list_cross of ctnts_and in ir-building */
  function CrossAnd(cs: seq<Ctnts>, ds: seq<Ctnts>): seq<Ctnts> {
    if cs == [] then [] else AndAll(cs[0], ds) + CrossAnd(cs[1..], ds)
  }

  function AndAll(c: Ctnts, ds: seq<Ctnts>): seq<Ctnts> {
    if ds == [] then [] else [CtntsAnd(c, ds[0])] + AndAll(c, ds[1..])
  }

  lemma AnyHoldsConcat(cs: seq<Ctnts>, ds: seq<Ctnts>, v: Valuation)
    ensures AnyHolds(cs + ds, v) <==> AnyHolds(cs, v) || AnyHolds(ds, v)
  {
    assert forall c :: c in cs + ds <==> c in cs || c in ds;
  }

  lemma AnyHoldsFirst(cs: seq<Ctnts>, v: Valuation)
    requires cs != []
    ensures AnyHolds(cs, v) <==> Holds(cs[0], v) || AnyHolds(cs[1..], v)
  {
    assert cs == [cs[0]] + cs[1..];
    AnyHoldsConcat([cs[0]], cs[1..], v);
    assert cs[0] in [cs[0]];
  }

  lemma {:induction false} AndAllSpec(c: Ctnts, ds: seq<Ctnts>, v: Valuation)
    ensures AnyHolds(AndAll(c, ds), v) <==> Holds(c, v) && AnyHolds(ds, v)
  {
    if ds != [] {
      AndAllSpec(c, ds[1..], v);
      AnyHoldsFirst(ds, v);
      AnyHoldsFirst(AndAll(c, ds), v);
      CtntsAndSpec(c, ds[0], v);
    }
  }

  lemma {:induction false} CrossAndSpec(cs: seq<Ctnts>, ds: seq<Ctnts>, v: Valuation)
    ensures AnyHolds(CrossAnd(cs, ds), v) <==> AnyHolds(cs, v) && AnyHolds(ds, v)
  {
    if cs != [] {
      CrossAndSpec(cs[1..], ds, v);
      AnyHoldsFirst(cs, v);
      AnyHoldsConcat(AndAll(cs[0], ds), CrossAnd(cs[1..], ds), v);
      AndAllSpec(cs[0], ds, v);
    }
  }
}
