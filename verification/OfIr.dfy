/** Printing constrained polynomials back to expressions (of_ir and normalize of asllib/StaticInterpreter.ml). */
module OfIr {
  import opened Prelude
  import opened Polynomial
  import opened Constraint
  import opened Expression
  import opened ToIr
  import opened Substitution
  import opened Normalize

  const ONE: Expr := ELiteral(LInt(1))
  const ZERO: Expr := ELiteral(LInt(0))
  const TRUE: Expr := ELiteral(LBool(true))

  function ExprOfZ(z: int): Expr {
    ELiteral(LInt(z))
  }

  // ---------------------------------------------------------------- monomials and polynomials

  function Times(e1: Expr, e2: Expr): Expr {
    if e1 == ONE then e2 else if e2 == ONE then e1 else EBinop(MUL, e1, e2)
  }

  function RaisedTo(e: Expr, p: nat): Expr {
    if p == 0 then ONE
    else if p == 1 then e
    else if p == 2 then Times(e, e)
    else EBinop(POW, e, ExprOfZ(p))
  }

  /** monomial_to_expr */
  ghost function MonoToExpr(rest: Mono, e: Expr): Expr
    decreases |rest|
  {
    if rest == map[] then e
    else
      var x := Pick(rest);
      MinusSmaller(rest, x);
      MonoToExpr(rest - {x}, Times(RaisedTo(EVar(x), rest[x]), e))
  }

  function Abs(c: int): int {
    if c < 0 then -c else c
  }

  function SignOf(c: int): Sign {
    if c > 0 then StrictPositive else if c == 0 then Null else StrictNegative
  }

  /** The local add of polynomial_to_expr, on signs that sign_of_z can give. */
  function AddSigned(s1: Sign, e1: Expr, s2: Sign, e2: Expr): Expr {
    if s2 == Null then e1
    else if s1 == Null then e2
    else if s1 == s2 then EBinop(PLUS, e1, e2)
    else EBinop(MINUS, e1, e2)
  }

  /** The fold of polynomial_to_expr, which keeps the sign of the expression built so far. */
  ghost function PolyFold(rest: Poly, e: Expr, s: Sign): (Expr, Sign)
    decreases |rest|
  {
    if rest == map[] then (e, s)
    else
      var m := Pick(rest);
      MinusSmaller(rest, m);
      var c := rest[m];
      PolyFold(rest - {m}, AddSigned(SignOf(c), MonoToExpr(m, ExprOfZ(Abs(c))), s, e), SignOf(c))
  }

  ghost function PolyToExpr(p: Poly): Expr {
    var (e, s) := PolyFold(p, ZERO, Null);
    if s == Null then ZERO else if s == StrictPositive then e else EUnop(NEG, e)
  }

  // ---------------------------------------------------------------- constraints and branches

  function SignToBinop(s: Sign): Binop {
    match s
    case Null => EQ_OP
    case NotNull => NEQ
    case StrictPositive => LT
    case Positive => LEQ
    case Negative => GEQ
    case StrictNegative => GT
  }

  /** ctnt_to_expr: compares the moved constant with the rest of the polynomial. */
  ghost function CtntToExpr(p: Poly, s: Sign): Expr {
    var c := if MONO_ONE in p then p[MONO_ONE] else 0;
    EBinop(SignToBinop(s), ExprOfZ(-c), PolyToExpr(p - {MONO_ONE}))
  }

  function AndExpr(e1: Expr, e2: Expr): Expr {
    if e1 == TRUE then e2 else if e2 == TRUE then e1 else EBinop(BAND, e1, e2)
  }

  ghost function CtntsFold(rest: map<Poly, Sign>, e: Expr): Expr
    decreases |rest|
  {
    if rest == map[] then e
    else
      var p := Pick(rest);
      MinusSmaller(rest, p);
      CtntsFold(rest - {p}, AndExpr(CtntToExpr(p, rest[p]), e))
  }

  /** The nested conditionals of of_ir, built from the last branch to the first. */
  ghost function Nest(ir: Ir): Expr {
    if ir == [] then ZERO
    else if ir[0].0.Bottom? then Nest(ir[1..])
    else ECond(CtntsFold(ir[0].0.signs, TRUE), PolyToExpr(ir[0].1), Nest(ir[1..]))
  }

  /** of_ir; None is the assertion that a single branch has no constraints. */
  ghost function Print(ir: Ir): Option<Expr> {
    if ir == [] then Some(ZERO)
    else if |ir| == 1 then
      if ir[0].0 == CTNTS_TRUE then Some(PolyToExpr(ir[0].1)) else None
    else Some(Nest(ir))
  }

  ghost function NormalForm(env: Env, e: Expr): Option<Expr>
    requires DeclaredInOrder(env)
  {
    var ir :- Compile(env, e);
    Print(Reduce(ir))
  }

  // ---------------------------------------------------------------- the printed expression has the same value

  /** Allowed atoms are looked up with their values in v. */
  ghost predicate Readable(look: Lookup, allowed: Atom -> bool, v: Valuation) {
    forall x :: allowed(x) ==> look(x) == Some(LInt(v(x)))
  }

  ghost predicate IsInt(e: Expr, look: Lookup, n: int) {
    Eval(e, look) == Some(LInt(n))
  }

  lemma TimesValue(e1: Expr, e2: Expr, look: Lookup, n1: int, n2: int)
    requires IsInt(e1, look, n1) && IsInt(e2, look, n2)
    ensures IsInt(Times(e1, e2), look, n1 * n2)
  {}

  lemma RaisedToValue(x: Atom, p: nat, look: Lookup, n: int)
    requires look(x) == Some(LInt(n))
    ensures IsInt(RaisedTo(EVar(x), p), look, Power(n, p))
  {
    if p == 1 {
      assert Power(n, 1) == n * Power(n, 0);
    } else if p == 2 {
      assert Power(n, 2) == n * Power(n, 1) == n * (n * Power(n, 0));
      TimesValue(EVar(x), EVar(x), look, n, n);
    } else if p > 2 {
      assert IsInt(ExprOfZ(p), look, p) && IsInt(EVar(x), look, n);
    }
  }

  lemma {:induction false} MonoToExprValue(rest: Mono, e: Expr, look: Lookup, v: Valuation, n: int)
    requires (forall x :: x in rest ==> look(x) == Some(LInt(v(x)))) && IsInt(e, look, n)
    ensures IsInt(MonoToExpr(rest, e), look, MonoValue(rest, v) * n)
    decreases |rest|
  {
    hide MonoValue; hide Power; hide IsInt;
    EmptyValues(v);
    if rest != map[] {
      var x := Pick(rest);
      MinusSmaller(rest, x);
      var w := Power(v(x), rest[x]);
      RaisedToValue(x, rest[x], look, v(x));
      TimesValue(RaisedTo(EVar(x), rest[x]), e, look, w, n);
      MonoToExprValue(rest - {x}, Times(RaisedTo(EVar(x), rest[x]), e), look, v, w * n);
      MonoTake(rest, x, v);
      Associate(MonoValue(rest - {x}, v), w, n);
    }
  }

  function SignFactor(s: Sign): int {
    if s == StrictPositive then 1 else if s == StrictNegative then -1 else 0
  }

  predicate OfZ(s: Sign) {
    s == Null || s == StrictPositive || s == StrictNegative
  }

  lemma PlusMinusValue(e1: Expr, e2: Expr, look: Lookup, n1: int, n2: int)
    requires IsInt(e1, look, n1) && IsInt(e2, look, n2)
    ensures IsInt(EBinop(PLUS, e1, e2), look, n1 + n2) && IsInt(EBinop(MINUS, e1, e2), look, n1 - n2)
  {}

  lemma AbsTimes(c: int, w: int)
    ensures w * Abs(c) == SignFactor(SignOf(c)) * (c * w)
  {}

  lemma AddSignedValue(c: int, e1: Expr, w: int, s: Sign, e: Expr, n: int, look: Lookup)
    requires c != 0 && OfZ(s) && IsInt(e1, look, w * Abs(c)) && IsInt(e, look, n)
    ensures exists n' :: IsInt(AddSigned(SignOf(c), e1, s, e), look, n')
                      && SignFactor(SignOf(c)) * n' == c * w + SignFactor(s) * n
  {
    hide IsInt;
    PlusMinusValue(e1, e, look, w * Abs(c), n);
    AbsTimes(c, w);
    var t := w * Abs(c);
    assert SignOf(c) == StrictPositive || SignOf(c) == StrictNegative;
    var n' := if s == Null then t else if s == SignOf(c) then t + n else t - n;
    assert IsInt(AddSigned(SignOf(c), e1, s, e), look, n');
  }

  /** The running sign times the running expression is what has been added up. */
  lemma {:induction false} PolyFoldValue(rest: Poly, e: Expr, s: Sign, look: Lookup, v: Valuation, n: int, allowed: Atom -> bool)
    requires Canonical(rest) && Proper(rest, allowed) && Readable(look, allowed, v)
    requires OfZ(s) && IsInt(e, look, n)
    ensures var (e', s') := PolyFold(rest, e, s);
            OfZ(s') && exists n' :: IsInt(e', look, n') && SignFactor(s') * n' == SignFactor(s) * n + PolyValue(rest, v)
    decreases |rest|
  {
    hide PolyValue; hide MonoValue; hide IsInt; hide SignFactor;
    EmptyValues(v);
    if rest != map[] {
      var m := Pick(rest);
      MinusSmaller(rest, m);
      var c := rest[m];
      var term := MonoToExpr(m, ExprOfZ(Abs(c)));
      LiteralIsInt(Abs(c), look);
      MonoToExprValue(m, ExprOfZ(Abs(c)), look, v, Abs(c));
      AddSignedValue(c, term, MonoValue(m, v), s, e, n, look);
      var k :| IsInt(AddSigned(SignOf(c), term, s, e), look, k)
            && SignFactor(SignOf(c)) * k == c * MonoValue(m, v) + SignFactor(s) * n;
      PolyFoldValue(rest - {m}, AddSigned(SignOf(c), term, s, e), SignOf(c), look, v, k, allowed);
      PolyTake(rest, m, v);
    }
  }

  lemma LiteralIsInt(z: int, look: Lookup)
    ensures IsInt(ExprOfZ(z), look, z)
  {}

  lemma PolyToExprValue(p: Poly, look: Lookup, v: Valuation, allowed: Atom -> bool)
    requires Canonical(p) && Proper(p, allowed) && Readable(look, allowed, v)
    ensures IsInt(PolyToExpr(p), look, PolyValue(p, v))
  {
    var (e, s) := PolyFold(p, ZERO, Null);
    PolyFoldValue(p, ZERO, Null, look, v, 0, allowed);
    var n :| IsInt(e, look, n) && SignFactor(s) * n == PolyValue(p, v);
  }

  lemma CtntToExprValue(p: Poly, s: Sign, look: Lookup, v: Valuation, allowed: Atom -> bool)
    requires Canonical(p) && Proper(p, allowed) && Readable(look, allowed, v)
    ensures Eval(CtntToExpr(p, s), look) == Some(LBool(Satisfies(PolyValue(p, v), s)))
  {
    hide PolyValue; hide PolyToExpr;
    var q := p - {MONO_ONE};
    var c := if MONO_ONE in p then p[MONO_ONE] else 0;
    PolyToExprValue(q, look, v, allowed);
    PolySplit(p, MONO_ONE, v);
    EmptyValues(v);
    assert Share(p, MONO_ONE, v) == c;
    assert IsInt(ExprOfZ(-c), look, -c);
  }

  ghost predicate Printable(signs: map<Poly, Sign>, allowed: Atom -> bool) {
    forall p :: p in signs ==> Canonical(p) && Proper(p, allowed)
  }

  lemma {:induction false} CtntsFoldValue(rest: map<Poly, Sign>, e: Expr, b: bool, look: Lookup, v: Valuation, allowed: Atom -> bool)
    requires Printable(rest, allowed) && Readable(look, allowed, v) && Eval(e, look) == Some(LBool(b))
    ensures Eval(CtntsFold(rest, e), look) == Some(LBool(b && Holds(Conjunction(rest), v)))
    decreases |rest|
  {
    if rest != map[] {
      hide Holds; hide CtntToExpr;
      var p := Pick(rest);
      MinusSmaller(rest, p);
      var t := CtntToExpr(p, rest[p]);
      CtntToExprValue(p, rest[p], look, v, allowed);
      var b' := Satisfies(PolyValue(p, v), rest[p]) && b;
      AndExprValue(t, e, Satisfies(PolyValue(p, v), rest[p]), b, look);
      CtntsFoldValue(rest - {p}, AndExpr(t, e), b', look, v, allowed);
      HoldsReplace(rest, p, rest[p], v);
      assert rest[p := rest[p]] == rest;
    }
  }

  lemma AndExprValue(e1: Expr, e2: Expr, b1: bool, b2: bool, look: Lookup)
    requires Eval(e1, look) == Some(LBool(b1)) && Eval(e2, look) == Some(LBool(b2))
    ensures Eval(AndExpr(e1, e2), look) == Some(LBool(b1 && b2))
  {}

  ghost predicate PrintableIr(ir: Ir, allowed: Atom -> bool) {
    forall b :: b in ir ==>
      Canonical(b.1) && Proper(b.1, allowed) && (b.0.Conjunction? ==> Printable(b.0.signs, allowed))
  }

  /** Nested conditionals take the first branch that holds. */
  lemma {:induction false} NestValue(ir: Ir, look: Lookup, v: Valuation, n: int, allowed: Atom -> bool)
    requires PrintableIr(ir, allowed) && Readable(look, allowed, v) && Agrees(ir, v, n)
    ensures IsInt(Nest(ir), look, if Covers(ir, v) then n else 0)
  {
    if ir != [] {
      hide PolyToExpr; hide CtntsFold; hide Holds; hide IsInt; hide PolyValue; hide Covers; hide Agrees; hide Eval;
      FirstMeaning(ir, v, n);
      NestValue(ir[1..], look, v, n, allowed);
      assert ir[0] in ir;
      if ir[0].0.Conjunction? {
        TrueValue(look);
        CtntsFoldValue(ir[0].0.signs, TRUE, true, look, v, allowed);
        PolyToExprValue(ir[0].1, look, v, allowed);
        CondValue(CtntsFold(ir[0].0.signs, TRUE), PolyToExpr(ir[0].1), Nest(ir[1..]), look,
          Holds(ir[0].0, v), PolyValue(ir[0].1, v), if Covers(ir[1..], v) then n else 0);
      } else {
        BottomHolds(v);
      }
    }
  }

  lemma CondValue(c: Expr, e1: Expr, e2: Expr, look: Lookup, b: bool, n1: int, n2: int)
    requires Eval(c, look) == Some(LBool(b)) && IsInt(e1, look, n1) && IsInt(e2, look, n2)
    ensures IsInt(ECond(c, e1, e2), look, if b then n1 else n2)
  {}

  lemma TrueValue(look: Lookup)
    ensures Eval(TRUE, look) == Some(LBool(true))
  {}

  lemma BottomHolds(v: Valuation)
    ensures !Holds(Bottom, v)
  {}

  /** of_ir prints an expression with the represented value. */
  lemma PrintValue(ir: Ir, look: Lookup, v: Valuation, n: int, allowed: Atom -> bool)
    requires PrintableIr(ir, allowed) && Readable(look, allowed, v) && Represents(ir, v, n)
    requires Print(ir).Some?
    ensures IsInt(Print(ir).value, look, n)
  {
    if |ir| == 1 {
      assert ir[0] in ir && Holds(ir[0].0, v);
      PolyToExprValue(ir[0].1, look, v, allowed);
    } else {
      NestValue(ir, look, v, n, allowed);
    }
  }
}
