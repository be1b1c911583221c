/** Polynomials as finite maps of monomials, and their values (asllib/StaticInterpreter.ml, Normalize). */
module Polynomial {
  type Atom = string
  /** Prod: the exponent of each atom. */
  type Mono = map<Atom, nat>
  /** Sum: the factor of each monomial. */
  type Poly = map<Mono, int>
  type Valuation = Atom -> int

  const MONO_ONE: Mono := map[]

  /** The key visited first by a fold. Nothing depends on which one it is. */
  ghost function Pick<K, V>(m: map<K, V>): (k: K)
    requires m != map[]
    ensures k in m
  {
    PickExists(m);
    var k :| k in m;
    k
  }

  lemma PickExists<K, V>(m: map<K, V>)
    ensures m != map[] ==> exists k :: k in m
  {
    if forall k :: k !in m {
      assert m == map[];
    }
  }

  lemma MinusSmaller<K, V>(m: map<K, V>, k: K)
    requires k in m
    ensures |m - {k}| == |m| - 1
  {
    assert m.Keys == (m - {k}).Keys + {k};
    assert |m.Keys| == |(m - {k}).Keys| + 1;
  }

  // ---------------------------------------------------------------- values

  function Power(b: int, e: nat): int {
    if e == 0 then 1 else b * Power(b, e - 1)
  }

  ghost function MonoValue(m: Mono, v: Valuation): int
    decreases |m|
  {
    if m == map[] then 1
    else
      var x := Pick(m);
      MinusSmaller(m, x);
      Power(v(x), m[x]) * MonoValue(m - {x}, v)
  }

  ghost function PolyValue(p: Poly, v: Valuation): int
    decreases |p|
  {
    if p == map[] then 0
    else
      var m := Pick(p);
      MinusSmaller(p, m);
      p[m] * MonoValue(m, v) + PolyValue(p - {m}, v)
  }

  /** Any atom can be taken out first. */
  lemma {:induction false} MonoTake(m: Mono, x: Atom, v: Valuation)
    requires x in m
    ensures MonoValue(m, v) == Power(v(x), m[x]) * MonoValue(m - {x}, v)
    decreases |m|
  {
    var y := Pick(m);
    MinusSmaller(m, y);
    if y != x {
      MinusSmaller(m, x);
      MonoTake(m - {y}, x, v);
      MonoTake(m - {x}, y, v);
      assert m - {y} - {x} == m - {x} - {y};
      Swap(Power(v(x), m[x]), Power(v(y), m[y]), MonoValue(m - {x} - {y}, v));
    }
  }

  lemma Swap(a: int, b: int, c: int)
    ensures a * (b * c) == b * (a * c)
  {}

  /** Any monomial can be taken out first. */
  lemma {:induction false} PolyTake(p: Poly, m: Mono, v: Valuation)
    requires m in p
    ensures PolyValue(p, v) == p[m] * MonoValue(m, v) + PolyValue(p - {m}, v)
    decreases |p|
  {
    var n := Pick(p);
    MinusSmaller(p, n);
    if n != m {
      MinusSmaller(p, m);
      PolyTake(p - {n}, m, v);
      PolyTake(p - {m}, n, v);
      assert p - {n} - {m} == p - {m} - {n};
    }
  }

  lemma PolyPut(p: Poly, m: Mono, c: int, v: Valuation)
    ensures PolyValue(p[m := c], v) == c * MonoValue(m, v) + PolyValue(p - {m}, v)
  {
    PolyTake(p[m := c], m, v);
    assert p[m := c] - {m} == p - {m};
  }

  /** The part of the value of p that the monomial m contributes. */
  ghost function Share(p: Poly, m: Mono, v: Valuation): int {
    if m in p then p[m] * MonoValue(m, v) else 0
  }

  lemma PolySplit(p: Poly, m: Mono, v: Valuation)
    ensures PolyValue(p, v) == Share(p, m, v) + PolyValue(p - {m}, v)
  {
    if m in p {
      PolyTake(p, m, v);
    } else {
      assert p - {m} == p;
    }
  }

  // ---------------------------------------------------------------- operations

  function PolyZero(): Poly { map[] }

  function PolyOfVar(x: Atom): Poly { map[map[x := 1] := 1] }

  function PolyOfZ(i: int): Poly { map[MONO_ONE := i] }

  function PolyNeg(p: Poly): Poly { map m | m in p :: -p[m] }

  function PolyScale(f: int, p: Poly): Poly { map m | m in p :: p[m] * f }

  function AddMono(m: Mono, factor: int, p: Poly): Poly {
    if m !in p then p[m := factor]
    else
      var f' := p[m] + factor;
      if f' == 0 then p - {m} else p[m := f']
  }

  function AddPolys(p: Poly, q: Poly): Poly {
    map m | m in p.Keys + q.Keys ::
      if m in p && m in q then p[m] + q[m] else if m in p then p[m] else q[m]
  }

  function MultMonos(m: Mono, n: Mono): Mono {
    map x | x in m.Keys + n.Keys ::
      if x in m && x in n then m[x] + n[x] else if x in m then m[x] else n[x]
  }

  /** The inner fold of mult_polys: adds f * m * q to acc. */
  ghost function MultRow(m: Mono, f: int, q: Poly, acc: Poly): Poly
    decreases |q|
  {
    if q == map[] then acc
    else
      var n := Pick(q);
      MinusSmaller(q, n);
      MultRow(m, f, q - {n}, AddMono(MultMonos(m, n), f * q[n], acc))
  }

  /** The outer fold of mult_polys: adds p * q to acc. */
  ghost function MultRows(p: Poly, q: Poly, acc: Poly): Poly
    decreases |p|
  {
    if p == map[] then acc
    else
      var m := Pick(p);
      MinusSmaller(p, m);
      MultRows(p - {m}, q, MultRow(m, p[m], q, acc))
  }

  ghost function MultPolys(p: Poly, q: Poly): Poly {
    MultRows(p, q, map[])
  }

  // ---------------------------------------------------------------- the operations compute on values

  lemma ConstantValue(i: int, v: Valuation)
    ensures PolyValue(PolyOfZ(i), v) == i
  {
    PolyPut(map[], MONO_ONE, i, v);
    assert PolyZero() - {MONO_ONE} == PolyZero();
  }

  lemma LinearMonoValue(x: Atom, v: Valuation)
    ensures MonoValue(map[x := 1], v) == v(x)
  {
    MonoTake(map[x := 1], x, v);
    assert map[x := 1] - {x} == map[];
    assert Power(v(x), 1) == v(x) * Power(v(x), 0);
  }

  lemma VarValue(x: Atom, v: Valuation)
    ensures PolyValue(PolyOfVar(x), v) == v(x)
  {
    LinearMonoValue(x, v);
    PolyPut(map[], map[x := 1], 1, v);
    assert PolyZero() - {map[x := 1]} == PolyZero();
  }

  lemma EmptyValues(v: Valuation)
    ensures PolyValue(map[], v) == 0 && MonoValue(map[], v) == 1
  {}

  lemma SumTimes(a: int, b: int, w: int)
    ensures (a + b) * w == a * w + b * w
    ensures w * (a + b) == w * a + w * b
    ensures (-a) * w == -(a * w)
  {}

  lemma AddMonoValue(m: Mono, factor: int, p: Poly, v: Valuation)
    ensures PolyValue(AddMono(m, factor, p), v) == factor * MonoValue(m, v) + PolyValue(p, v)
  {
    hide PolyValue; hide MonoValue;
    PolySplit(p, m, v);
    if m !in p {
      PolyPut(p, m, factor, v);
    } else {
      SumTimes(p[m], factor, MonoValue(m, v));
      PolyPut(p, m, p[m] + factor, v);
    }
  }

  lemma {:induction false} NegValue(p: Poly, v: Valuation)
    ensures PolyValue(PolyNeg(p), v) == -PolyValue(p, v)
    decreases |p|
  {
    hide PolyValue; hide MonoValue;
    if p == map[] {
      EmptyValues(v);
      assert PolyNeg(p) == p;
    } else {
      var m := Pick(p);
      MinusSmaller(p, m);
      NegValue(p - {m}, v);
      PolyTake(p, m, v);
      PolyTake(PolyNeg(p), m, v);
      assert PolyNeg(p) - {m} == PolyNeg(p - {m});
      SumTimes(p[m], 0, MonoValue(m, v));
    }
  }

  lemma {:induction false} ScaleValue(f: int, p: Poly, v: Valuation)
    ensures PolyValue(PolyScale(f, p), v) == PolyValue(p, v) * f
    decreases |p|
  {
    hide PolyValue; hide MonoValue;
    if p == map[] {
      EmptyValues(v);
      assert PolyScale(f, p) == p;
    } else {
      var m := Pick(p);
      MinusSmaller(p, m);
      ScaleValue(f, p - {m}, v);
      PolyTake(p, m, v);
      PolyTake(PolyScale(f, p), m, v);
      assert PolyScale(f, p) - {m} == PolyScale(f, p - {m});
      Swap(f, p[m], MonoValue(m, v));
      SumTimes(p[m] * MonoValue(m, v), PolyValue(p - {m}, v), f);
    }
  }

  lemma AddPolysZero(q: Poly)
    ensures AddPolys(map[], q) == q
  {}

  lemma AddPolysMinus(p: Poly, q: Poly, m: Mono)
    requires m in p
    ensures m in AddPolys(p, q) && AddPolys(p, q)[m] == p[m] + (if m in q then q[m] else 0)
    ensures AddPolys(p, q) - {m} == AddPolys(p - {m}, q - {m})
  {}

  lemma {:induction false} AddPolysValue(p: Poly, q: Poly, v: Valuation)
    ensures PolyValue(AddPolys(p, q), v) == PolyValue(p, v) + PolyValue(q, v)
    decreases |p|
  {
    hide PolyValue; hide MonoValue; hide AddPolys;
    if p == map[] {
      EmptyValues(v);
      AddPolysZero(q);
    } else {
      var m := Pick(p);
      MinusSmaller(p, m);
      AddPolysValue(p - {m}, q - {m}, v);
      AddPolysMinus(p, q, m);
      PolyTake(AddPolys(p, q), m, v);
      PolyTake(p, m, v);
      PolySplit(q, m, v);
      SumTimes(p[m], if m in q then q[m] else 0, MonoValue(m, v));
    }
  }

  lemma {:induction false} PowerAdd(b: int, d: nat, e: nat)
    ensures Power(b, d + e) == Power(b, d) * Power(b, e)
  {
    if d > 0 {
      PowerAdd(b, d - 1, e);
      Swap(b, Power(b, d - 1), Power(b, e));
    }
  }

  lemma MultMonosOne(n: Mono)
    ensures MultMonos(map[], n) == n
  {}

  lemma MultMonosMinus(m: Mono, n: Mono, x: Atom)
    requires x in m
    ensures x in MultMonos(m, n) && MultMonos(m, n)[x] == m[x] + (if x in n then n[x] else 0)
    ensures MultMonos(m, n) - {x} == MultMonos(m - {x}, n - {x})
  {}

  lemma {:induction false} MultMonosValue(m: Mono, n: Mono, v: Valuation)
    ensures MonoValue(MultMonos(m, n), v) == MonoValue(m, v) * MonoValue(n, v)
    decreases |m|
  {
    hide MonoValue; hide Power; hide MultMonos;
    if m == map[] {
      EmptyValues(v);
      MultMonosOne(n);
    } else {
      var x := Pick(m);
      MinusSmaller(m, x);
      MultMonosValue(m - {x}, n - {x}, v);
      MultMonosMinus(m, n, x);
      MonoTake(MultMonos(m, n), x, v);
      MonoTake(m, x, v);
      var rest, rest' := MonoValue(m - {x}, v), MonoValue(n - {x}, v);
      if x in n {
        MonoTake(n, x, v);
        PowerAdd(v(x), m[x], n[x]);
        Regroup(Power(v(x), m[x]), Power(v(x), n[x]), rest, rest');
      } else {
        assert n - {x} == n;
        Associate(Power(v(x), m[x]), rest, rest');
      }
    }
  }

  lemma Associate(a: int, b: int, c: int)
    ensures a * (b * c) == (a * b) * c
  {}

  lemma Regroup(a: int, b: int, c: int, d: int)
    ensures (a * b) * (c * d) == (a * c) * (b * d)
  {
    Associate(a, b, c * d);
    Swap(b, c, d);
    Associate(a, c, b * d);
  }

  lemma RowStep(f: int, g: int, m: int, n: int, rest: int)
    ensures (f * m) * (g * n + rest) == (f * g) * (m * n) + (f * m) * rest
  {
    Regroup(f, g, m, n);
    SumTimes(g * n, rest, f * m);
  }

  lemma {:induction false} MultRowValue(m: Mono, f: int, q: Poly, acc: Poly, v: Valuation)
    ensures PolyValue(MultRow(m, f, q, acc), v) == (f * MonoValue(m, v)) * PolyValue(q, v) + PolyValue(acc, v)
    decreases |q|
  {
    hide PolyValue; hide MonoValue; hide MultMonos; hide AddMono;
    if q == map[] {
      EmptyValues(v);
    } else {
      var n := Pick(q);
      MinusSmaller(q, n);
      var acc' := AddMono(MultMonos(m, n), f * q[n], acc);
      MultRowValue(m, f, q - {n}, acc', v);
      AddMonoValue(MultMonos(m, n), f * q[n], acc, v);
      MultMonosValue(m, n, v);
      PolyTake(q, n, v);
      RowStep(f, q[n], MonoValue(m, v), MonoValue(n, v), PolyValue(q - {n}, v));
    }
  }

  lemma {:induction false} MultRowsValue(p: Poly, q: Poly, acc: Poly, v: Valuation)
    ensures PolyValue(MultRows(p, q, acc), v) == PolyValue(p, v) * PolyValue(q, v) + PolyValue(acc, v)
    decreases |p|
  {
    hide PolyValue; hide MonoValue; hide MultRow;
    if p == map[] {
      EmptyValues(v);
    } else {
      var m := Pick(p);
      MinusSmaller(p, m);
      MultRowsValue(p - {m}, q, MultRow(m, p[m], q, acc), v);
      MultRowValue(m, p[m], q, acc, v);
      PolyTake(p, m, v);
      SumTimes(p[m] * MonoValue(m, v), PolyValue(p - {m}, v), PolyValue(q, v));
    }
  }

  /** mult_polys is multiplication at every valuation. */
  lemma MultPolysValue(p: Poly, q: Poly, v: Valuation)
    ensures PolyValue(MultPolys(p, q), v) == PolyValue(p, v) * PolyValue(q, v)
  {
    MultRowsValue(p, q, map[], v);
    EmptyValues(v);
  }

  // ---------------------------------------------------------------- atoms and exponents

  /** Every atom of p is allowed, and no exponent is zero. */
  ghost predicate Proper(p: Poly, allowed: Atom -> bool) {
    forall m, x :: m in p && x in m ==> allowed(x) && m[x] > 0
  }

  /** No factor is zero. */
  ghost predicate Canonical(p: Poly) {
    forall m :: m in p ==> p[m] != 0
  }

  lemma ProperOperations(p: Poly, q: Poly, f: int, allowed: Atom -> bool)
    requires Proper(p, allowed) && Proper(q, allowed)
    ensures Proper(AddPolys(p, q), allowed) && Proper(PolyNeg(p), allowed) && Proper(PolyScale(f, p), allowed)
  {}

  lemma ProperAddMono(m: Mono, f: int, acc: Poly, allowed: Atom -> bool)
    requires Proper(acc, allowed) && forall x :: x in m ==> allowed(x) && m[x] > 0
    ensures Proper(AddMono(m, f, acc), allowed)
  {}

  lemma {:induction false} ProperMultRow(m: Mono, f: int, q: Poly, acc: Poly, allowed: Atom -> bool)
    requires Proper(q, allowed) && Proper(acc, allowed)
    requires forall x :: x in m ==> allowed(x) && m[x] > 0
    ensures Proper(MultRow(m, f, q, acc), allowed)
    decreases |q|
  {
    if q != map[] {
      var n := Pick(q);
      MinusSmaller(q, n);
      ProperAddMono(MultMonos(m, n), f * q[n], acc, allowed);
      ProperMultRow(m, f, q - {n}, AddMono(MultMonos(m, n), f * q[n], acc), allowed);
    }
  }

  lemma {:induction false} ProperMultRows(p: Poly, q: Poly, acc: Poly, allowed: Atom -> bool)
    requires Proper(p, allowed) && Proper(q, allowed) && Proper(acc, allowed)
    ensures Proper(MultRows(p, q, acc), allowed)
    decreases |p|
  {
    if p != map[] {
      var m := Pick(p);
      MinusSmaller(p, m);
      ProperMultRow(m, p[m], q, acc, allowed);
      ProperMultRows(p - {m}, q, MultRow(m, p[m], q, acc), allowed);
    }
  }

  // ---------------------------------------------------------------- values depend on the atoms only

  lemma {:induction false} MonoValueExt(m: Mono, v: Valuation, w: Valuation)
    requires forall x :: x in m ==> v(x) == w(x)
    ensures MonoValue(m, v) == MonoValue(m, w)
    decreases |m|
  {
    if m != map[] {
      MinusSmaller(m, Pick(m));
      MonoValueExt(m - {Pick(m)}, v, w);
    }
  }

  lemma {:induction false} PolyValueExt(p: Poly, v: Valuation, w: Valuation)
    requires forall x :: v(x) == w(x)
    ensures PolyValue(p, v) == PolyValue(p, w)
    decreases |p|
  {
    if p != map[] {
      MinusSmaller(p, Pick(p));
      MonoValueExt(Pick(p), v, w);
      PolyValueExt(p - {Pick(p)}, v, w);
    }
  }
}
