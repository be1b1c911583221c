/** Polynomials that are not constant take large values, and values divisible by numbers prime to given ones. */
module Nonvanishing {
  import opened Polynomial
  import Equations
  import Substitution

  // ---------------------------------------------------------------- divisibility

  predicate Divides(d: int, n: int) {
    if d == 0 then n == 0 else n % d == 0
  }

  function Over(d: int, n: int): int {
    if d == 0 then 0 else n / d
  }

  lemma OverTimes(d: int, n: int)
    requires Divides(d, n)
    ensures n == d * Over(d, n)
  {}

  lemma DividesProduct(d: int, k: int)
    ensures Divides(d, d * k)
  {
    if d != 0 {
      Equations.MultipleRest(d, k);
    }
  }

  lemma DividesSum(d: int, a: int, b: int)
    requires Divides(d, a) && Divides(d, b)
    ensures Divides(d, a + b) && Divides(d, a - b)
  {
    hide Divides;
    var i, j := Over(d, a), Over(d, b);
    OverTimes(d, a);
    OverTimes(d, b);
    DividesProduct(d, i + j);
    DividesProduct(d, i - j);
    assert d * (i + j) == a + b && d * (i - j) == a - b;
  }

  lemma DividesTimes(d: int, a: int, b: int)
    requires Divides(d, a)
    ensures Divides(d, a * b) && Divides(d, b * a)
  {
    hide Divides;
    var i := Over(d, a);
    OverTimes(d, a);
    DividesProduct(d, i * b);
    Associate(d, i, b);
    assert d * (i * b) == a * b == b * a;
  }

  /** u has an inverse modulo d. */
  ghost predicate Cancels(d: int, u: int) {
    forall n :: Divides(d, u * n) ==> Divides(d, n)
  }

  lemma NotDivided(d: int, u: int)
    requires !Divides(d, 1) && Cancels(d, u)
    ensures !Divides(d, u)
  {
    hide Divides;
    assert u * 1 == u;
  }

  /** What is one modulo a multiple of u cancels u. */
  lemma OneModulo(d: int, n: int, u: int)
    requires Divides(n, d - 1) && Divides(u, n)
    ensures Cancels(d, u)
  {
    hide Divides;
    var i, j := Over(n, d - 1), Over(u, n);
    OverTimes(n, d - 1);
    OverTimes(u, n);
    forall k | Divides(d, u * k)
      ensures Divides(d, k)
    {
      DividesTimes(d, u * k, j * i);
      DividesProduct(d, k);
      DividesSum(d, d * k, (u * k) * (j * i));
      Regroup(u, k, j, i);
      assert (u * k) * (j * i) == (u * j) * (k * i) == n * (k * i);
      Swap(n, k, i);
      assert k * (n * i) == k * (d - 1) == d * k - k;
    }
  }

  lemma ZeroCancels(u: int)
    requires u != 0
    ensures Cancels(0, u)
  {
    forall n | Divides(0, u * n)
      ensures Divides(0, n)
    {
      Equations.NonZeroProduct(u, n);
    }
  }

  lemma SomeIn<T>(s: set<T>)
    requires s != {}
    ensures exists x :: x in s
  {}

  lemma SomeNumber(s: set<int>)
    requires s != {}
    ensures exists n: int :: n in s
  {
    if forall n: int :: n !in s {
      assert false;
    }
  }

  lemma {:induction false} CommonMultiple(us: set<int>) returns (n: int)
    requires 0 !in us
    ensures n >= 1 && forall u :: u in us ==> Divides(u, n)
    decreases |us|
  {
    if us == {} {
      n := 1;
    } else {
      hide Divides;
      SomeNumber(us);
      var u :| u in us;
      var k := CommonMultiple(us - {u});
      var a := if u > 0 then u else -u;
      n := a * k;
      assert n >= 1;
      DividesProduct(u, if u > 0 then k else -k);
      assert u * (if u > 0 then k else -k) == n;
      forall w | w in us
        ensures Divides(w, n)
      {
        if w != u {
          DividesTimes(w, k, a);
        }
      }
    }
  }

  lemma {:induction false} Maximum(s: set<int>) returns (n: int)
    requires s != {}
    ensures n in s && forall k :: k in s ==> k <= n
    decreases |s|
  {
    SomeNumber(s);
    var m: int :| m in s;
    n := m;
    if s - {m} != {} {
      var k := Maximum(s - {m});
      n := if k > m then k else m;
    }
    forall k | k in s
      ensures k <= n
    {
      if k != m {
        assert k in s - {m};
      }
    }
  }

  // ---------------------------------------------------------------- values are congruent at congruent valuations

  ghost predicate Congruent(v: Valuation, w: Valuation, d: int) {
    forall x :: Divides(d, v(x) - w(x))
  }

  lemma ProductCongruent(a: int, b: int, a': int, b': int, d: int)
    requires Divides(d, a - a') && Divides(d, b - b')
    ensures Divides(d, a * b - a' * b')
  {
    hide Divides;
    DividesTimes(d, b - b', a);
    DividesTimes(d, a - a', b');
    DividesSum(d, a * (b - b'), (a - a') * b');
    assert a * (b - b') + (a - a') * b' == a * b - a' * b';
  }

  lemma {:induction false} PowerCongruent(a: int, b: int, e: nat, d: int)
    requires Divides(d, a - b)
    ensures Divides(d, Power(a, e) - Power(b, e))
  {
    if e > 0 {
      PowerCongruent(a, b, e - 1, d);
      ProductCongruent(a, Power(a, e - 1), b, Power(b, e - 1), d);
    }
  }

  lemma {:induction false} MonoCongruent(m: Mono, v: Valuation, w: Valuation, d: int)
    requires Congruent(v, w, d)
    ensures Divides(d, MonoValue(m, v) - MonoValue(m, w))
    decreases |m|
  {
    if m != map[] {
      hide Power;
      var x := Pick(m);
      MinusSmaller(m, x);
      MonoCongruent(m - {x}, v, w, d);
      PowerCongruent(v(x), w(x), m[x], d);
      ProductCongruent(Power(v(x), m[x]), MonoValue(m - {x}, v), Power(w(x), m[x]), MonoValue(m - {x}, w), d);
    }
  }

  lemma SumCongruent(f: int, i: int, j: int, a: int, b: int, d: int)
    requires Divides(d, i - j) && Divides(d, a - b)
    ensures Divides(d, (f * i + a) - (f * j + b))
  {
    hide Divides;
    DividesTimes(d, i - j, f);
    DividesSum(d, f * (i - j), a - b);
    assert f * (i - j) == f * i - f * j;
  }

  /** Congruent valuations give congruent values. */
  lemma {:induction false} PolyCongruent(p: Poly, v: Valuation, w: Valuation, d: int)
    requires Congruent(v, w, d)
    ensures Divides(d, PolyValue(p, v) - PolyValue(p, w))
    decreases |p|
  {
    if p != map[] {
      hide MonoValue; hide Congruent; hide Divides;
      var m := Pick(p);
      MinusSmaller(p, m);
      PolyCongruent(p - {m}, v, w, d);
      MonoCongruent(m, v, w, d);
      SumCongruent(p[m], MonoValue(m, v), MonoValue(m, w), PolyValue(p - {m}, v), PolyValue(p - {m}, w), d);
    }
  }

  // ---------------------------------------------------------------- one monomial can be made larger than the others

  predicate PositiveExponents(m: Mono) {
    forall x :: x in m ==> m[x] > 0
  }

  /** All atoms have positive values that are multiples of n. */
  ghost predicate Scaled(v: Valuation, n: int) {
    forall x :: v(x) >= 1 && Divides(n, v(x))
  }

  ghost predicate Dominates(m: Mono, ms: set<Mono>, k: int, v: Valuation) {
    m in ms && forall n :: n in ms && n != m ==> MonoValue(m, v) >= k * MonoValue(n, v)
  }

  lemma {:induction false} PowerPositive(a: int, e: nat)
    requires a >= 1
    ensures Power(a, e) >= 1
  {
    if e > 0 {
      PowerPositive(a, e - 1);
    }
  }

  lemma {:induction false} MonoPositive(m: Mono, v: Valuation)
    requires forall x :: v(x) >= 1
    ensures MonoValue(m, v) >= 1
    decreases |m|
  {
    if m != map[] {
      hide Power;
      var x := Pick(m);
      MinusSmaller(m, x);
      PowerPositive(v(x), m[x]);
      MonoPositive(m - {x}, v);
    }
  }

  lemma MonoMultiple(m: Mono, v: Valuation, n: int)
    requires Scaled(v, n) && PositiveExponents(m) && m != MONO_ONE
    ensures Divides(n, MonoValue(m, v))
  {
    hide Divides;
    var x := Pick(m);
    DividesTimes(n, v(x), Power(v(x), m[x] - 1));
    DividesTimes(n, Power(v(x), m[x]), MonoValue(m - {x}, v));
  }

  function Degree(m: Mono, x: Atom): nat {
    if x in m then m[x] else 0
  }

  lemma DegreeValue(m: Mono, x: Atom, v: Valuation)
    ensures MonoValue(m, v) == Power(v(x), Degree(m, x)) * MonoValue(m - {x}, v)
  {
    if x in m {
      MonoTake(m, x, v);
    } else {
      assert m - {x} == m;
    }
  }

  lemma {:induction false} PowerGrows(t: int, e: nat, d: nat)
    requires t >= 1 && e <= d
    ensures Power(t, e) <= Power(t, d)
  {
    if e < d {
      PowerGrows(t, e, d - 1);
      PowerPositive(t, d - 1);
    }
  }

  lemma ProductGrows(a: int, b: int, c: int, d: int)
    requires 0 <= a <= c && 0 <= b <= d
    ensures a * b <= c * d
  {
    assert a * b <= c * b;
  }

  lemma HigherDegree(t: int, k: int, b: int, d: nat, a: int, e: nat, c: int)
    requires k >= 1 && a >= 1 && 1 <= c <= b && t >= k * b && e <= d && (e == d ==> a >= k * c)
    ensures Power(t, d) * a >= k * (Power(t, e) * c)
  {
    hide Power;
    ProductGrows(1, 1, k, b);
    PowerPositive(t, e);
    Swap(k, Power(t, e), c);
    if e == d {
      ProductGrows(Power(t, e), k * c, Power(t, d), a);
    } else {
      PowerStep(t, d);
      PowerGrows(t, e, d - 1);
      ProductGrows(k, c, k, b);
      ProductGrows(Power(t, e), k * c, Power(t, d - 1), t);
      ProductGrows(Power(t, d), 1, Power(t, d), a);
    }
  }

  lemma PowerStep(t: int, d: nat)
    requires d > 0
    ensures Power(t, d) == Power(t, d - 1) * t
  {}

  lemma SameRest(m: Mono, n: Mono, x: Atom)
    requires PositiveExponents(m) && PositiveExponents(n) && Degree(m, x) == Degree(n, x) && m - {x} == n - {x}
    ensures m == n
  {
    assert x in m <==> x in n;
    forall y | y in m || y in n
      ensures y in m && y in n && m[y] == n[y]
    {
      if y != x {
        assert y in m - {x} || y in n - {x};
        assert (m - {x})[y] == (n - {x})[y];
      }
    }
  }

  /** What is left of the monomials of degree d in x. */
  ghost function Rests(ms: set<Mono>, x: Atom, d: nat): set<Mono> {
    set m: Mono | m in ms && Degree(m, x) == d :: m - {x}
  }

  lemma MaximalDegree(ms: set<Mono>, x: Atom) returns (d: nat)
    requires ms != {}
    ensures (exists m :: m in ms && Degree(m, x) == d) && forall m :: m in ms ==> Degree(m, x) <= d
  {
    var degrees: set<int> := set m | m in ms :: Degree(m, x);
    SomeIn(ms);
    var m :| m in ms;
    assert Degree(m, x) in degrees;
    d := Maximum(degrees);
    assert forall m :: m in ms ==> Degree(m, x) in degrees;
  }

  lemma RestsOver(ms: set<Mono>, x: Atom, d: nat, xs: set<Atom>)
    requires x in xs && (exists m :: m in ms && Degree(m, x) == d) && forall m :: m in ms ==> m.Keys <= xs && PositiveExponents(m)
    ensures Rests(ms, x, d) != {} && forall r :: r in Rests(ms, x, d) ==> r.Keys <= xs - {x} && PositiveExponents(r)
  {
    var m :| m in ms && Degree(m, x) == d;
    assert m - {x} in Rests(ms, x, d);
  }

  /** Distinct monomials can be told apart by size: some valuation makes one of them k times as large as all others. */
  lemma {:induction false} Dominant(ms: set<Mono>, xs: set<Atom>, k: int, n: int) returns (v: Valuation, m: Mono)
    requires ms != {} && k >= 1 && n >= 1 && forall m :: m in ms ==> m.Keys <= xs && PositiveExponents(m)
    ensures Scaled(v, n) && Dominates(m, ms, k, v)
    decreases |xs|
  {
    if xs == {} {
      v := _ => n;
      SomeIn(ms);
      m :| m in ms;
      assert forall m' :: m' in ms ==> m' == map[];
    } else {
      SomeIn(xs);
      var x :| x in xs;
      var d := MaximalDegree(ms, x);
      var rests := Rests(ms, x, d);
      RestsOver(ms, x, d, xs);
      var w, r := Dominant(rests, xs - {x}, k, n);
      m :| m in ms && Degree(m, x) == d && m - {x} == r;
      v := Spread(ms, x, k, n, w);
      forall m' | m' in ms && m' != m
        ensures MonoValue(m, v) >= k * MonoValue(m', v)
      {
        if Degree(m', x) == d {
          assert m' - {x} in rests;
          if m' - {x} == r {
            SameRest(m, m', x);
          }
        }
        DominantStep(ms, x, k, v, w, m, m');
      }
    }
  }

  /** x is made so large that its power decides. */
  ghost predicate Decides(ms: set<Mono>, x: Atom, k: int, v: Valuation, w: Valuation) {
    && (forall y :: w(y) >= 1)
    && (forall y :: y != x ==> v(y) == w(y))
    && exists b :: v(x) >= k * b && forall m :: m in ms ==> MonoValue(m - {x}, w) <= b
  }

  lemma Spread(ms: set<Mono>, x: Atom, k: int, n: int, w: Valuation) returns (v: Valuation)
    requires ms != {} && k >= 1 && n >= 1 && Scaled(w, n)
    ensures Scaled(v, n) && Decides(ms, x, k, v, w)
  {
    hide MonoValue; hide Divides;
    var sizes := set m | m in ms :: MonoValue(m - {x}, w);
    var some :| some in ms;
    assert MonoValue(some - {x}, w) in sizes;
    var b := Maximum(sizes);
    forall m | m in ms
      ensures 1 <= MonoValue(m - {x}, w) <= b
    {
      assert MonoValue(m - {x}, w) in sizes;
      MonoPositive(m - {x}, w);
    }
    var t := n * (k * b);
    ProductGrows(1, 1, k, b);
    ProductGrows(1, k * b, n, k * b);
    DividesProduct(n, k * b);
    v := y => if y == x then t else w(y);
  }

  lemma DominantStep(ms: set<Mono>, x: Atom, k: int, v: Valuation, w: Valuation, m: Mono, m': Mono)
    requires k >= 1 && Decides(ms, x, k, v, w) && m in ms && m' in ms && Degree(m', x) <= Degree(m, x)
    requires Degree(m', x) == Degree(m, x) ==> MonoValue(m - {x}, w) >= k * MonoValue(m' - {x}, w)
    ensures MonoValue(m, v) >= k * MonoValue(m', v)
  {
    hide MonoValue; hide Power;
    var b :| v(x) >= k * b && forall m :: m in ms ==> MonoValue(m - {x}, w) <= b;
    DegreeValue(m, x, v);
    DegreeValue(m', x, v);
    MonoValueExt(m - {x}, v, w);
    MonoValueExt(m' - {x}, v, w);
    MonoPositive(m - {x}, w);
    MonoPositive(m' - {x}, w);
    HigherDegree(v(x), k, b, Degree(m, x), MonoValue(m - {x}, w), Degree(m', x), MonoValue(m' - {x}, w));
  }

  // ---------------------------------------------------------------- values of polynomials that are not constant

  ghost predicate NonConstant(p: Poly) {
    exists m :: m in p && m != MONO_ONE
  }

  ghost predicate Bounded(p: Poly, c: int) {
    forall m :: m in p ==> -c <= p[m] <= c
  }

  lemma FactorBound(p: Poly) returns (c: int)
    ensures c >= 0 && Bounded(p, c)
  {
    var sizes: set<int> := {0} + set m | m in p :: if p[m] < 0 then -p[m] else p[m];
    assert 0 in sizes;
    c := Maximum(sizes);
    forall m | m in p
      ensures -c <= p[m] <= c
    {
      assert (if p[m] < 0 then -p[m] else p[m]) in sizes;
    }
  }

  /** k times x is no larger than t. */
  predicate Within(x: int, k: int, t: int) {
    -t <= k * x <= t
  }

  lemma TermSmall(f: int, c: int, w: int, k: int, size: int)
    requires -c <= f <= c && 0 <= k && 0 <= w && Within(w, k, size)
    ensures Within(f * w, k, c * size)
  {
    Swap(k, f, w);
    ProductGrows(0, 0, k, w);
    ProductGrows(if f < 0 then -f else f, k * w, c, size);
  }

  lemma SumSmall(a: int, b: int, k: int, n: int, t: int)
    requires Within(a, k, t) && Within(b, k, (n - 1) * t)
    ensures Within(a + b, k, n * t)
  {
    SumTimes(a, b, k);
    SumTimes(n - 1, 1, t);
  }

  ghost predicate AllSmall(p: Poly, v: Valuation, k: int, size: int) {
    forall m :: m in p ==> MonoValue(m, v) >= 0 && Within(MonoValue(m, v), k, size)
  }

  lemma SmallTake(p: Poly, v: Valuation, c: int, k: int, size: int, m: Mono)
    requires m in p && Bounded(p, c) && AllSmall(p, v, k, size)
    ensures -c <= p[m] <= c && Bounded(p - {m}, c)
    ensures MonoValue(m, v) >= 0 && Within(MonoValue(m, v), k, size) && AllSmall(p - {m}, v, k, size)
  {
    hide MonoValue; hide Within;
  }

  /** Monomials that are small k times together make a polynomial that is small k times. */
  lemma {:induction false} RestSmall(p: Poly, v: Valuation, c: int, k: int, size: int, n: int)
    requires c >= 0 && k >= 0 && size >= 0 && Bounded(p, c) && |p| <= n && AllSmall(p, v, k, size)
    ensures Within(PolyValue(p, v), k, n * (c * size))
    decreases |p|
  {
    if p == map[] {
      ProductGrows(0, 0, c, size);
      ProductGrows(0, 0, n, c * size);
    } else {
      hide MonoValue; hide Within; hide Bounded; hide AllSmall;
      var m := Pick(p);
      MinusSmaller(p, m);
      SmallTake(p, v, c, k, size, m);
      RestSmall(p - {m}, v, c, k, size, n - 1);
      TermSmall(p[m], c, MonoValue(m, v), k, size);
      SumSmall(p[m] * MonoValue(m, v), PolyValue(p - {m}, v), k, n, c * size);
    }
  }

  lemma HalfLeft(l: int, f: int, r: int, n: int, s: int)
    requires l >= 1 && f != 0 && 0 <= n && 0 <= s
    requires Within(r, Weight(n, s), n * (s * l))
    ensures 2 * (f * l + r) >= l || -2 * (f * l + r) >= l
  {
    var t := n * s;
    ProductGrows(0, 0, n, s);
    Associate(n, s, l);
    assert -(t * l) <= 2 * ((t + 1) * r) <= t * l;
    SmallerThan(t, 2 * r, l);
    if f > 0 {
      ProductGrows(1, l, f, l);
    } else {
      ProductGrows(1, l, -f, l);
    }
  }

  lemma SmallerThan(t: int, r: int, l: int)
    requires t >= 0 && l >= 1 && -(t * l) <= (t + 1) * r <= t * l
    ensures -l <= r <= l
  {
    if r > l {
      ProductGrows(t + 1, l, t + 1, r);
    } else if r < -l {
      ProductGrows(t + 1, l, t + 1, -r);
    }
  }

  function Weight(n: int, c: int): int {
    2 * (n * c) + 2
  }

  lemma WeightLarge(n: int, c: int)
    requires n >= 0 && c >= 0
    ensures Weight(n, c) >= 2
  {
    ProductGrows(0, 0, n, c);
  }

  /** A polynomial that is not constant takes arbitrarily large values at multiples of n. */
  lemma GrowsLarge(p: Poly, n: int, allowed: Atom -> bool) returns (v: Valuation)
    requires NonConstant(p) && Canonical(p) && Proper(p, allowed) && n >= 1
    ensures Scaled(v, n) && (2 * PolyValue(p, v) >= n || -2 * PolyValue(p, v) >= n)
  {
    hide MonoValue; hide PolyValue; hide Divides; hide NonConstant; hide Weight; hide Within;
    var c := FactorBound(p);
    var k, xs := Weight(|p|, c), AtomsIn(p);
    WeightLarge(|p|, c);
    NotConstantNotEmpty(p);
    assert forall m :: m in p.Keys ==> m.Keys <= xs && PositiveExponents(m);
    var m;
    v, m := Dominant(p.Keys, xs, k, n);
    DominantLarge(p, n, k, v, m);
    RestOfDominant(p, v, c, k, m);
    PolyTake(p, m, v);
    HalfLeft(MonoValue(m, v), p[m], PolyValue(p - {m}, v), |p|, c);
  }

  ghost function AtomsIn(p: Poly): set<Atom> {
    set m, x | m in p && x in m :: x
  }

  lemma NotConstantNotEmpty(p: Poly)
    requires NonConstant(p)
    ensures p.Keys != {} && p != map[]
  {}

  lemma MultipleAtLeast(n: int, w: int)
    requires n >= 1 && w >= 1 && Divides(n, w)
    ensures w >= n
  {}

  lemma DominantLarge(p: Poly, n: int, k: int, v: Valuation, m: Mono)
    requires NonConstant(p) && (forall m :: m in p ==> PositiveExponents(m)) && n >= 1 && k >= 2
    requires Scaled(v, n) && Dominates(m, p.Keys, k, v)
    ensures MonoValue(m, v) >= n
  {
    hide MonoValue; hide Divides; hide PositiveExponents;
    var other :| other in p && other != MONO_ONE;
    MonoPositive(other, v);
    MonoPositive(m, v);
    EmptyValues(v);
    NotOne(m, other, k, v);
    MonoMultiple(m, v, n);
    MultipleAtLeast(n, MonoValue(m, v));
  }

  lemma NotOne(m: Mono, other: Mono, k: int, v: Valuation)
    requires k >= 2 && MonoValue(other, v) >= 1 && other != MONO_ONE
    requires m != other ==> MonoValue(m, v) >= k * MonoValue(other, v)
    ensures m != MONO_ONE
  {
    ProductGrows(2, 1, k, MonoValue(other, v));
  }

  lemma RestOfDominant(p: Poly, v: Valuation, c: int, k: int, m: Mono)
    requires Bounded(p, c) && c >= 0 && k >= 0 && (forall x :: v(x) >= 1) && Dominates(m, p.Keys, k, v)
    ensures Within(PolyValue(p - {m}, v), k, |p| * (c * MonoValue(m, v)))
  {
    hide MonoValue; hide PolyValue;
    MonoPositive(m, v);
    MinusSmaller(p, m);
    forall n | n in p - {m}
      ensures MonoValue(n, v) >= 0 && Within(MonoValue(n, v), k, MonoValue(m, v))
    {
      MonoPositive(n, v);
      ProductGrows(0, 0, k, MonoValue(n, v));
    }
    RestSmall(p - {m}, v, c, k, MonoValue(m, v), |p|);
  }

  lemma {:induction false} MultipleSum(p: Poly, v: Valuation, n: int)
    requires Scaled(v, n) && forall m :: m in p ==> PositiveExponents(m) && m != MONO_ONE
    ensures Divides(n, PolyValue(p, v))
    decreases |p|
  {
    hide MonoValue; hide Divides; hide PositiveExponents;
    DividesProduct(n, 0);
    if p != map[] {
      var m := Pick(p);
      MinusSmaller(p, m);
      MultipleSum(p - {m}, v, n);
      MonoMultiple(m, v, n);
      DividesTimes(n, MonoValue(m, v), p[m]);
      DividesSum(n, p[m] * MonoValue(m, v), PolyValue(p - {m}, v));
    }
  }

  /**
   * A polynomial that is not constant has a value divisible by some d that is not a unit but one modulo n.
   */
  lemma ReachModulus(p: Poly, n: int, allowed: Atom -> bool) returns (v: Valuation, d: int)
    requires NonConstant(p) && Canonical(p) && Proper(p, allowed) && n >= 1
    ensures Divides(d, PolyValue(p, v)) && Divides(n, d - 1) && !Divides(d, 1)
  {
    hide MonoValue; hide PolyValue; hide Divides; hide NonConstant;
    var a := if MONO_ONE in p then p[MONO_ONE] else 0;
    if a == 0 {
      v, d := _ => 0, 1 + n;
      AtZero(p);
      DividesProduct(d, 0);
      DividesProduct(n, 1);
      NotUnit(d);
    } else {
      var s := if a > 0 then 1 else -1;
      ProductGrows(1, 1, s * a, n);
      v := GrowsLarge(p, 4 * (s * a * n), allowed);
      PolySplit(p, MONO_ONE, v);
      EmptyValues(v);
      MultipleSum(p - {MONO_ONE}, v, 4 * (s * a * n));
      var j := Over(4 * (s * a * n), PolyValue(p - {MONO_ONE}, v));
      OverTimes(4 * (s * a * n), PolyValue(p - {MONO_ONE}, v));
      d := 1 + n * (4 * (s * j));
      DividesProduct(n, 4 * (s * j));
      Quotients(a, s, n, j);
      DividesProduct(d, a);
      ProductGrows(s * a, 1, s * a, n);
      TooLarge(a, s, d, 4 * (s * a));
      NotUnit(d);
    }
  }

  lemma AtZero(p: Poly)
    requires (MONO_ONE in p ==> p[MONO_ONE] == 0) && forall m :: m in p ==> PositiveExponents(m)
    ensures PolyValue(p, _ => 0) == 0
  {
    hide MonoValue; hide PolyValue;
    var v: Valuation := _ => 0;
    PolySplit(p, MONO_ONE, v);
    VanishesAtZero(p - {MONO_ONE}, v);
  }

  lemma {:induction false} VanishesAtZero(p: Poly, v: Valuation)
    requires (forall x :: v(x) == 0) && forall m :: m in p ==> PositiveExponents(m) && m != MONO_ONE
    ensures PolyValue(p, v) == 0
    decreases |p|
  {
    if p != map[] {
      var m := Pick(p);
      MinusSmaller(p, m);
      VanishesAtZero(p - {m}, v);
      assert MonoValue(m, v) == 0;
    }
  }

  lemma NotUnit(d: int)
    requires d >= 2 || d <= -2
    ensures !Divides(d, 1)
  {}

  lemma Quotients(a: int, s: int, n: int, j: int)
    ensures a + 4 * (s * a * n) * j == (1 + n * (4 * (s * j))) * a
  {
    Regroup(s, a, n, j);
    SumTimes(1, n * (4 * (s * j)), a);
    assert 4 * (s * a * n) * j == 4 * (((s * a) * n) * j);
    Associate(s * a, n, j);
    Regroup(s, a, j, n);
    Regroup(s, j, n, a);
    Swap(n, s, j);
    assert n * (4 * (s * j)) * a == 4 * ((n * (s * j)) * a);
  }

  lemma TooLarge(a: int, s: int, d: int, n: int)
    requires a != 0 && s == (if a > 0 then 1 else -1) && n == 4 * (s * a)
    requires 2 * (d * a) >= n || -2 * (d * a) >= n
    ensures d >= 2 || d <= -2
  {
    if -1 <= d <= 1 {
      UnitTimes(a, d);
    }
  }

  lemma UnitTimes(a: int, d: int)
    requires -1 <= d <= 1
    ensures d * a == 0 || d * a == a || d * a == -a
  {}

  // ---------------------------------------------------------------- polynomials are determined by their values

  /** A polynomial without zero factors and zero exponents that is zero everywhere has no monomial. */
  lemma ZeroEverywhere(p: Poly, allowed: Atom -> bool)
    requires Canonical(p) && Proper(p, allowed) && forall v :: PolyValue(p, v) == 0
    ensures p == map[]
  {
    hide PolyValue; hide Proper;
    if NonConstant(p) {
      var v := GrowsLarge(p, 1, allowed);
    } else if p != map[] {
      var v: Valuation := _ => 0;
      OnlyOne(p);
      ConstantValue(p[MONO_ONE], v);
    }
  }

  lemma OnlyOne(p: Poly)
    requires !NonConstant(p) && p != map[]
    ensures MONO_ONE in p && p == PolyOfZ(p[MONO_ONE])
  {
    var m := Pick(p);
  }

  /** Two such polynomials with the same values are the same map. */
  lemma SameValues(p: Poly, q: Poly, allowed: Atom -> bool)
    requires Canonical(p) && Proper(p, allowed) && Canonical(q) && Proper(q, allowed)
    requires forall v :: PolyValue(p, v) == PolyValue(q, v)
    ensures p == q
  {
    hide PolyValue; hide Proper;
    var d := AddPolys(p, PolyNeg(q));
    var r := Substitution.DropZeros(d);
    DifferenceProper(p, q, allowed);
    assert Canonical(r);
    forall v
      ensures PolyValue(r, v) == 0
    {
      AddPolysValue(p, PolyNeg(q), v);
      NegValue(q, v);
      Substitution.DropZerosValue(d, v);
    }
    ZeroEverywhere(r, allowed);
    forall m | m in p || m in q
      ensures m in p && m in q && p[m] == q[m]
    {
      assert m in d && m !in r;
    }
  }

  lemma DifferenceProper(p: Poly, q: Poly, allowed: Atom -> bool)
    requires Proper(p, allowed) && Proper(q, allowed)
    ensures Proper(Substitution.DropZeros(AddPolys(p, PolyNeg(q))), allowed)
  {
    ProperOperations(p, q, 1, allowed);
    ProperOperations(p, PolyNeg(q), 1, allowed);
  }
}
