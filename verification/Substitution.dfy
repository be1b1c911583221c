/** Substitution of known atoms in polynomials and constraints (asllib/StaticInterpreter.ml, Normalize). */
module Substitution {
  import opened Prelude
  import opened Polynomial
  import opened Constraint

  /** The atom x has the value c, as read off the polynomial `from`. */
  datatype Affectation = Affectation(x: Atom, c: int, from: Option<Poly>)

  // ---------------------------------------------------------------- substitution

  function SubstMono(affs: seq<Affectation>, m: Mono, factor: int): (Mono, int) {
    if affs == [] then (m, factor)
    else
      var a := affs[0];
      if a.x in m then SubstMono(affs[1..], m - {a.x}, factor * Power(a.c, m[a.x]))
      else SubstMono(affs[1..], m, factor)
  }

  /** The affectations that were not read off p itself. */
  function Others(affs: seq<Affectation>, p: Poly): seq<Affectation> {
    if affs == [] then []
    else if affs[0].from == Some(p) then Others(affs[1..], p)
    else [affs[0]] + Others(affs[1..], p)
  }

  /** The fold of subst_poly over the monomials still to come. */
  ghost function SubstFold(affs: seq<Affectation>, rest: Poly, acc: Poly): Poly
    decreases |rest|
  {
    if rest == map[] then acc
    else
      var m := Pick(rest);
      MinusSmaller(rest, m);
      var (m', f') := SubstMono(affs, m, rest[m]);
      SubstFold(affs, rest - {m}, if f' == 0 then acc else AddMono(m', f', acc))
  }

  ghost function SubstPoly(affs: seq<Affectation>, p: Poly): Poly {
    SubstFold(Others(affs, p), p, map[])
  }

  /** filter_map reduce_mono */
  function DropZeros(p: Poly): Poly {
    map m | m in p && p[m] != 0 :: p[m]
  }

  ghost function ReducePoly(affs: seq<Affectation>, p: Poly): Poly {
    SubstPoly(affs, DropZeros(p))
  }

  // ---------------------------------------------------------------- substitution changes the valuation

  function Assigned(affs: seq<Affectation>, x: Atom, default: int): int {
    if affs == [] then default
    else if affs[0].x == x then affs[0].c
    else Assigned(affs[1..], x, default)
  }

  function Override(affs: seq<Affectation>, v: Valuation): Valuation {
    x => Assigned(affs, x, v(x))
  }

  lemma {:induction false} SubstMonoValue(affs: seq<Affectation>, m: Mono, f: int, v: Valuation)
    ensures var (m', f') := SubstMono(affs, m, f);
            f' * MonoValue(m', v) == f * MonoValue(m, Override(affs, v))
  {
    var w := Override(affs, v);
    if affs == [] {
      MonoValueExt(m, v, w);
    } else {
      var a, w' := affs[0], Override(affs[1..], v);
      if a.x in m {
        SubstMonoValue(affs[1..], m - {a.x}, f * Power(a.c, m[a.x]), v);
        MonoTake(m, a.x, w);
        MonoValueExt(m - {a.x}, w, w');
        Associate(f, Power(a.c, m[a.x]), MonoValue(m - {a.x}, w));
      } else {
        SubstMonoValue(affs[1..], m, f, v);
        MonoValueExt(m, w, w');
      }
    }
  }

  lemma {:induction false} SubstFoldValue(affs: seq<Affectation>, rest: Poly, acc: Poly, v: Valuation)
    ensures PolyValue(SubstFold(affs, rest, acc), v) == PolyValue(acc, v) + PolyValue(rest, Override(affs, v))
    decreases |rest|
  {
    hide PolyValue; hide MonoValue; hide AddMono; hide SubstMono;
    EmptyValues(Override(affs, v));
    if rest != map[] {
      var m := Pick(rest);
      MinusSmaller(rest, m);
      var (m', f') := SubstMono(affs, m, rest[m]);
      SubstFoldValue(affs, rest - {m}, if f' == 0 then acc else AddMono(m', f', acc), v);
      SubstMonoValue(affs, m, rest[m], v);
      AddMonoValue(m', f', acc, v);
      PolyTake(rest, m, Override(affs, v));
    }
  }

  lemma {:induction false} DropZerosValue(p: Poly, v: Valuation)
    ensures PolyValue(DropZeros(p), v) == PolyValue(p, v)
    decreases |p|
  {
    hide PolyValue;
    EmptyValues(v);
    if p == map[] {
      assert DropZeros(p) == p;
    } else {
      var m := Pick(p);
      MinusSmaller(p, m);
      DropZerosValue(p - {m}, v);
      PolyTake(p, m, v);
      PolySplit(DropZeros(p), m, v);
      assert DropZeros(p) - {m} == DropZeros(p - {m});
    }
  }

  /** reduce_poly evaluates p after substituting every affectation that was not read off p. */
  lemma ReducePolyValue(affs: seq<Affectation>, p: Poly, v: Valuation)
    ensures PolyValue(ReducePoly(affs, p), v) == PolyValue(p, Override(Others(affs, DropZeros(p)), v))
  {
    var q := DropZeros(p);
    SubstFoldValue(Others(affs, q), q, map[], v);
    EmptyValues(v);
    DropZerosValue(p, Override(Others(affs, q), v));
  }

  /** v gives every affected atom its value. */
  ghost predicate Respects(v: Valuation, affs: seq<Affectation>) {
    forall a :: a in affs ==> v(a.x) == a.c
  }

  lemma {:induction false} OthersSubset(affs: seq<Affectation>, p: Poly)
    ensures forall a :: a in Others(affs, p) <==> a in affs && a.from != Some(p)
  {
    if affs != [] {
      OthersSubset(affs[1..], p);
    }
  }

  lemma {:induction false} AssignedSame(affs: seq<Affectation>, x: Atom, v: Valuation)
    requires Respects(v, affs)
    ensures Assigned(affs, x, v(x)) == v(x)
  {
    if affs != [] {
      assert affs[0] in affs;
      AssignedSame(affs[1..], x, v);
    }
  }

  lemma {:induction false} AssignedSome(affs: seq<Affectation>, x: Atom, d: int)
    ensures Assigned(affs, x, d) == d || exists a :: a in affs && a.x == x && Assigned(affs, x, d) == a.c
  {
    if affs != [] {
      assert affs[0] in affs;
      AssignedSome(affs[1..], x, d);
    }
  }

  /** Substituting true equations does not change the value. */
  lemma ReducePolySame(affs: seq<Affectation>, p: Poly, v: Valuation)
    requires Respects(v, affs)
    ensures PolyValue(p, Override(Others(affs, DropZeros(p)), v)) == PolyValue(p, v)
    ensures PolyValue(ReducePoly(affs, p), v) == PolyValue(p, v)
  {
    var os := Others(affs, DropZeros(p));
    OthersSubset(affs, DropZeros(p));
    forall x
      ensures Override(os, v)(x) == v(x)
    {
      AssignedSame(os, x, v);
    }
    PolyValueExt(p, Override(os, v), v);
    ReducePolyValue(affs, p, v);
  }

  // ---------------------------------------------------------------- reducing constraints

  function GetConstant(p: Poly): Option<int> {
    if p == map[] then Some(0)
    else if |p| == 1 && MONO_ONE in p then Some(p[MONO_ONE])
    else None
  }

  lemma GetConstantValue(p: Poly, v: Valuation)
    requires GetConstant(p).Some?
    ensures PolyValue(p, v) == GetConstant(p).value
  {
    EmptyValues(v);
    if p != map[] {
      PolyTake(p, MONO_ONE, v);
      MinusSmaller(p, MONO_ONE);
      assert p - {MONO_ONE} == map[];
    }
  }

  /** ctnt_is_trivial; None is the interrupt of an unsatisfied constant. */
  function IsTrivial(p: Poly, s: Sign): Option<bool> {
    match GetConstant(p)
    case Some(c) => if Satisfies(c, s) then Some(true) else None
    case None => Some(false)
  }

  /** The fold of reduce_ctnts over the constraints still to come; None is the interrupt. */
  ghost function ReduceFold(affs: seq<Affectation>, rest: map<Poly, Sign>, acc: map<Poly, Sign>): Option<map<Poly, Sign>>
    decreases |rest|
  {
    if rest == map[] then Some(acc)
    else
      var p := Pick(rest);
      MinusSmaller(rest, p);
      var q := ReducePoly(affs, p);
      var trivial :- IsTrivial(q, rest[p]);
      if trivial then ReduceFold(affs, rest - {p}, acc)
      else if q !in acc then ReduceFold(affs, rest - {p}, acc[q := rest[p]])
      else
        var s :- SignAnd(rest[p], acc[q]);
        ReduceFold(affs, rest - {p}, acc[q := s])
  }

  ghost function ReduceCtnts(affs: seq<Affectation>, c: Ctnts): Ctnts {
    if c.Bottom? then Bottom
    else
      match ReduceFold(affs, c.signs, map[])
      case None => Bottom
      case Some(signs) => Conjunction(signs)
  }

  /** The constraint on p after substituting what was not read off p. */
  ghost predicate HoldsReduced(affs: seq<Affectation>, p: Poly, s: Sign, v: Valuation) {
    Satisfies(PolyValue(p, Override(Others(affs, DropZeros(p)), v)), s)
  }

  ghost predicate AllHoldReduced(affs: seq<Affectation>, signs: map<Poly, Sign>, v: Valuation) {
    forall p :: p in signs ==> HoldsReduced(affs, p, signs[p], v)
  }

  lemma HoldsPut(acc: map<Poly, Sign>, q: Poly, s: Sign, v: Valuation)
    ensures q !in acc ==>
              (Holds(Conjunction(acc[q := s]), v) <==> Holds(Conjunction(acc), v) && Satisfies(PolyValue(q, v), s))
    ensures q in acc ==>
              (SignAnd(s, acc[q]).Some? && Holds(Conjunction(acc[q := SignAnd(s, acc[q]).value]), v) <==>
               Holds(Conjunction(acc), v) && Satisfies(PolyValue(q, v), s))
  {
    if q in acc {
      SignAndSpec(PolyValue(q, v), s, acc[q]);
      if SignAnd(s, acc[q]).Some? {
        HoldsReplace(acc, q, SignAnd(s, acc[q]).value, v);
      }
      HoldsReplace(acc, q, acc[q], v);
      assert acc[q := acc[q]] == acc;
    } else {
      HoldsReplace(acc, q, s, v);
      assert acc - {q} == acc;
    }
  }

  lemma HoldsReplace(acc: map<Poly, Sign>, q: Poly, s: Sign, v: Valuation)
    ensures Holds(Conjunction(acc[q := s]), v) <==> Holds(Conjunction(acc - {q}), v) && Satisfies(PolyValue(q, v), s)
  {
    assert q in acc[q := s];
    assert forall p :: p in acc - {q} ==> p in acc[q := s];
  }

  lemma AllHoldReducedTake(affs: seq<Affectation>, rest: map<Poly, Sign>, p: Poly, v: Valuation)
    requires p in rest
    ensures AllHoldReduced(affs, rest, v) <==>
            HoldsReduced(affs, p, rest[p], v) && AllHoldReduced(affs, rest - {p}, v)
  {
    hide HoldsReduced;
    assert forall q :: q in rest <==> q == p || q in rest - {p};
  }

  lemma {:induction false} ReduceFoldSpec(affs: seq<Affectation>, rest: map<Poly, Sign>, acc: map<Poly, Sign>, v: Valuation)
    ensures var r := ReduceFold(affs, rest, acc);
            r.Some? && Holds(Conjunction(r.value), v) <==>
            Holds(Conjunction(acc), v) && AllHoldReduced(affs, rest, v)
    decreases |rest|
  {
    if rest != map[] {
      hide Holds; hide ReducePoly; hide SignAnd; hide GetConstant; hide HoldsReduced;
      var p := Pick(rest);
      MinusSmaller(rest, p);
      var q := ReducePoly(affs, p);
      ReducedConstraint(affs, p, rest[p], v);
      AllHoldReducedTake(affs, rest, p, v);
      HoldsPut(acc, q, rest[p], v);
      match IsTrivial(q, rest[p])
      case None =>
      case Some(trivial) =>
        if trivial {
          ReduceFoldSpec(affs, rest - {p}, acc, v);
        } else if q !in acc {
          ReduceFoldSpec(affs, rest - {p}, acc[q := rest[p]], v);
        } else if SignAnd(rest[p], acc[q]).Some? {
          ReduceFoldSpec(affs, rest - {p}, acc[q := SignAnd(rest[p], acc[q]).value], v);
        }
    }
  }

  lemma ReducedConstraint(affs: seq<Affectation>, p: Poly, s: Sign, v: Valuation)
    ensures HoldsReduced(affs, p, s, v) <==> Satisfies(PolyValue(ReducePoly(affs, p), v), s)
    ensures IsTrivial(ReducePoly(affs, p), s) == Some(true) ==> HoldsReduced(affs, p, s, v)
    ensures IsTrivial(ReducePoly(affs, p), s) == None ==> !HoldsReduced(affs, p, s, v)
  {
    ReducePolyValue(affs, p, v);
    if GetConstant(ReducePoly(affs, p)).Some? {
      GetConstantValue(ReducePoly(affs, p), v);
    }
  }

  /** reduce_ctnts keeps each constraint, evaluated after substituting the other constraints' equations. */
  lemma ReduceCtntsSpec(affs: seq<Affectation>, c: Ctnts, v: Valuation)
    ensures Holds(ReduceCtnts(affs, c), v) <==> c.Conjunction? && AllHoldReduced(affs, c.signs, v)
  {
    if c.Conjunction? {
      ReduceFoldSpec(affs, c.signs, map[], v);
    }
  }
}
