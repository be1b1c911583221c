/** Whether normal forms can be normalised again (asllib/StaticInterpreter.ml, of_ir and to_ir). */
module Idempotence {
  import opened Prelude
  import opened Polynomial
  import opened Constraint
  import opened Expression
  import opened ToIr
  import opened Substitution
  import opened Normalize
  import opened OfIr
  import opened F = NormalForm
  import opened Comparison
  import opened Completeness

  ghost predicate Compiles(env: Env, e: Expr)
    requires DeclaredInOrder(env)
  {
    Compile(env, e).Some?
  }

  lemma LiteralCompiles(env: Env, z: int)
    requires DeclaredInOrder(env)
    ensures Compiles(env, ExprOfZ(z))
  {}

  lemma TimesCompiles(env: Env, e1: Expr, e2: Expr)
    requires DeclaredInOrder(env)
    ensures Compiles(env, Times(e1, e2)) <==> Compiles(env, e1) && Compiles(env, e2)
  {
    hide CrossNum;
    LiteralCompiles(env, 1);
  }

  /** Powers from three on are printed as powers, which do not compile; squares are printed as products. */
  lemma RaisedToCompiles(env: Env, x: Atom, p: nat)
    requires DeclaredInOrder(env) && IsAtom(env, x)
    ensures Compiles(env, RaisedTo(EVar(x), p)) <==> p <= 2
  {
    hide CrossNum;
    LiteralCompiles(env, 1);
    assert Compiles(env, EVar(x));
    if p == 2 {
      TimesCompiles(env, EVar(x), EVar(x));
    } else if p > 2 {
      assert Eval(EVar(x), StaticLookup(env)) == None;
      assert Eval(EBinop(POW, EVar(x), ExprOfZ(p)), StaticLookup(env)) == None;
    }
  }

  predicate LowMono(m: Mono) {
    forall x :: x in m ==> m[x] <= 2
  }

  lemma LowMonoTake(m: Mono, x: Atom)
    requires x in m
    ensures LowMono(m) <==> m[x] <= 2 && LowMono(m - {x})
  {
    assert forall y :: y in m <==> y == x || y in m - {x};
  }

  ghost predicate LowPoly(p: Poly) {
    forall m :: m in p ==> LowMono(m)
  }

  lemma {:induction false} MonoCompiles(env: Env, rest: Mono, e: Expr)
    requires DeclaredInOrder(env) && forall x :: x in rest ==> IsAtom(env, x)
    ensures Compiles(env, MonoToExpr(rest, e)) <==> Compiles(env, e) && LowMono(rest)
    decreases |rest|
  {
    if rest != map[] {
      hide Compiles; hide IsAtom; hide DeclaredInOrder; hide LowMono;
      var x := Pick(rest);
      MinusSmaller(rest, x);
      RaisedToCompiles(env, x, rest[x]);
      TimesCompiles(env, RaisedTo(EVar(x), rest[x]), e);
      MonoCompiles(env, rest - {x}, Times(RaisedTo(EVar(x), rest[x]), e));
      LowMonoTake(rest, x);
    }
  }

  lemma AddSignedCompiles(env: Env, s1: Sign, e1: Expr, s2: Sign, e2: Expr)
    requires DeclaredInOrder(env) && s1 != Null && (s2 == Null ==> Compiles(env, e2))
    ensures Compiles(env, AddSigned(s1, e1, s2, e2)) <==> Compiles(env, e1) && Compiles(env, e2)
  {
    hide CrossNum;
    MinusCompiles(env, e1, e2);
  }

  lemma {:induction false} PolyFoldCompiles(env: Env, rest: Poly, e: Expr, s: Sign)
    requires DeclaredInOrder(env) && Canonical(rest) && Proper(rest, AtomsOf(env)) && (s == Null ==> Compiles(env, e))
    ensures Compiles(env, PolyFold(rest, e, s).0) <==> Compiles(env, e) && LowPoly(rest)
    decreases |rest|
  {
    if rest != map[] {
      hide Compiles; hide DeclaredInOrder; hide LowMono; hide IsAtom;
      var m := Pick(rest);
      MinusSmaller(rest, m);
      var c := rest[m];
      var term := MonoToExpr(m, ExprOfZ(Abs(c)));
      LiteralCompiles(env, Abs(c));
      MonoCompiles(env, m, ExprOfZ(Abs(c)));
      AddSignedCompiles(env, SignOf(c), term, s, e);
      PolyFoldCompiles(env, rest - {m}, AddSigned(SignOf(c), term, s, e), SignOf(c));
      assert forall n :: n in rest <==> n == m || n in rest - {m};
    }
  }

  lemma NegCompiles(env: Env, e: Expr)
    requires DeclaredInOrder(env)
    ensures Compiles(env, EUnop(NEG, e)) <==> Compiles(env, e)
  {
    hide MapNum;
  }

  /** A printed polynomial compiles exactly when it has no exponent above two. */
  lemma PolyToExprCompiles(env: Env, p: Poly)
    requires DeclaredInOrder(env) && Canonical(p) && Proper(p, AtomsOf(env))
    ensures Compiles(env, PolyToExpr(p)) <==> LowPoly(p)
  {
    hide Compiles; hide Proper; hide Canonical;
    var (e, s) := PolyFold(p, ZERO, Null);
    LiteralCompiles(env, 0);
    PolyFoldCompiles(env, p, ZERO, Null);
    NegCompiles(env, e);
    NotNullAfter(p, ZERO, Null);
  }

  lemma {:induction false} NotNullAfter(rest: Poly, e: Expr, s: Sign)
    requires Canonical(rest)
    ensures s != Null || rest != map[] ==> PolyFold(rest, e, s).1 != Null
    decreases |rest|
  {
    if rest != map[] {
      var m := Pick(rest);
      MinusSmaller(rest, m);
      var c := rest[m];
      NotNullAfter(rest - {m}, AddSigned(SignOf(c), MonoToExpr(m, ExprOfZ(Abs(c))), s, e), SignOf(c));
    }
  }

  // ---------------------------------------------------------------- the printed form without cases has none

  lemma {:induction false} MonoFlat(env: Env, rest: Mono, e: Expr)
    requires DeclaredInOrder(env) && (forall x :: x in rest ==> IsAtom(env, x)) && LowMono(rest)
    requires InFragment(env, e) && Flat(env, e)
    ensures InFragment(env, MonoToExpr(rest, e)) && Flat(env, MonoToExpr(rest, e))
    decreases |rest|
  {
    if rest != map[] {
      hide DeclaredInOrder;
      var x := Pick(rest);
      MinusSmaller(rest, x);
      assert IsAtom(env, x) && InFragment(env, EVar(x)) && Flat(env, EVar(x));
      TimesFlat(env, EVar(x), EVar(x));
      TimesFlat(env, RaisedTo(EVar(x), rest[x]), e);
      MonoFlat(env, rest - {x}, Times(RaisedTo(EVar(x), rest[x]), e));
    }
  }

  lemma TimesFlat(env: Env, e1: Expr, e2: Expr)
    requires DeclaredInOrder(env) && InFragment(env, e1) && Flat(env, e1) && InFragment(env, e2) && Flat(env, e2)
    ensures InFragment(env, Times(e1, e2)) && Flat(env, Times(e1, e2))
  {}

  lemma SumFlat(env: Env, e1: Expr, e2: Expr)
    requires DeclaredInOrder(env) && InFragment(env, e1) && Flat(env, e1) && InFragment(env, e2) && Flat(env, e2)
    ensures InFragment(env, EBinop(PLUS, e1, e2)) && Flat(env, EBinop(PLUS, e1, e2))
    ensures InFragment(env, EBinop(MINUS, e1, e2)) && Flat(env, EBinop(MINUS, e1, e2))
    ensures InFragment(env, EUnop(NEG, e1)) && Flat(env, EUnop(NEG, e1))
  {}

  lemma LiteralFlat(env: Env, z: int)
    requires DeclaredInOrder(env)
    ensures InFragment(env, ExprOfZ(z)) && Flat(env, ExprOfZ(z))
  {}

  lemma {:induction false} PolyFoldFlat(env: Env, rest: Poly, e: Expr, s: Sign)
    requires DeclaredInOrder(env) && Proper(rest, AtomsOf(env)) && LowPoly(rest) && InFragment(env, e) && Flat(env, e)
    ensures InFragment(env, PolyFold(rest, e, s).0) && Flat(env, PolyFold(rest, e, s).0)
    decreases |rest|
  {
    if rest != map[] {
      hide InFragment; hide Flat; hide DeclaredInOrder; hide IsAtom;
      var m := Pick(rest);
      MinusSmaller(rest, m);
      var c := rest[m];
      var term := MonoToExpr(m, ExprOfZ(Abs(c)));
      LiteralFlat(env, Abs(c));
      MonoFlat(env, m, ExprOfZ(Abs(c)));
      SumFlat(env, term, e);
      PolyFoldFlat(env, rest - {m}, AddSigned(SignOf(c), term, s, e), SignOf(c));
    }
  }

  lemma PolyToExprFlat(env: Env, p: Poly)
    requires DeclaredInOrder(env) && Proper(p, AtomsOf(env)) && LowPoly(p)
    ensures InFragment(env, PolyToExpr(p)) && Flat(env, PolyToExpr(p))
  {
    hide InFragment; hide Flat; hide Proper; hide LowPoly;
    var (e, s) := PolyFold(p, ZERO, Null);
    LiteralFlat(env, 0);
    PolyFoldFlat(env, p, ZERO, Null);
    SumFlat(env, e, ZERO);
  }

  /**
   * Normalising the normal form of an arithmetic expression without cases gives it again, exactly when the reduced
   * polynomial has no exponent above two; otherwise it fails.
   */
  lemma NormalFormTwice(env: Env, e: Expr, p: Poly)
    requires DeclaredInOrder(env) && Plain(env, e, p) && Extendable(env)
    ensures NormalForm(env, e).Some?
    ensures var nf := NormalForm(env, e).value;
            NormalForm(env, nf) == if LowPoly(ReducePoly([], p)) then Some(nf) else None
  {
    hide Compile; hide Reduce; hide ReducePoly; hide Proper; hide Canonical; hide PolyToExpr; hide LowPoly; hide Extendable;
    var q := ReducePoly([], p);
    PlainReduced(p);
    PlainProper(env, e, p);
    ReducePolyClean([], p, AtomsOf(env));
    var nf := PolyToExpr(q);
    assert NormalForm(env, e) == Some(nf);
    PolyToExprCompiles(env, q);
    if LowPoly(q) {
      PolyToExprFlat(env, q);
      FlatPlain(env, nf);
      var p' :| Plain(env, nf, p');
      forall v | Consistent(env, v)
        ensures SameValue(env, e, nf, v)
      {
        PlainValue(env, e, p, v);
        NothingSubstituted(p, v);
        ConsistentReadable(env, v);
        PolyToExprValue(q, LookupIn(env, v), v, AtomsOf(env));
      }
      NormalFormIff(env, e, nf, p, p');
    }
  }

  lemma ConsistentReadable(env: Env, v: Valuation)
    ensures Readable(LookupIn(env, v), AtomsOf(env), v)
  {}
}
