/** Static expressions over integers and booleans and their evaluation (asllib/StaticInterpreter.ml). */
module Expression {
  import opened Prelude
  import opened Polynomial

  datatype Literal = LInt(i: int) | LBool(b: bool)

  datatype Binop = PLUS | MINUS | MUL | DIV | DIVRM | MOD | POW | SHL | SHR
                 | EQ_OP | NEQ | LEQ | LT | GEQ | GT | BAND | BOR | BEQ | IMPL

  datatype Unop = NEG | BNOT

  datatype Expr =
    | ELiteral(lit: Literal)
    | EVar(x: Atom)
    | EBinop(op: Binop, e1: Expr, e2: Expr)
    | EUnop(uop: Unop, e: Expr)
    | ECond(cond: Expr, thn: Expr, els: Expr)

  type Lookup = Atom -> Option<Literal>

  lemma {:induction false} PowerPositive(b: int, e: nat)
    requires b > 0
    ensures Power(b, e) > 0
  {
    if e > 0 {
      PowerPositive(b, e - 1);
    }
  }

  /** binop_values on integers and booleans; None is the failure for unsupported operands. */
  function BinopValues(op: Binop, l1: Literal, l2: Literal): Option<Literal> {
    match (l1, l2)
    case (LInt(a), LInt(b)) =>
      (match op
       case PLUS => Some(LInt(a + b))
       case MUL => Some(LInt(a * b))
       case MINUS => Some(LInt(a - b))
       case DIV => if b > 0 && a % b == 0 then Some(LInt(a / b)) else None
       case DIVRM => if b > 0 then Some(LInt(a / b)) else None
       case MOD => if b > 0 then Some(LInt(a - b * (a / b))) else None
       case POW => if b >= 0 then Some(LInt(Power(a, b))) else None
       case SHL => if b >= 0 then Some(LInt(a * Power(2, b))) else None
       case SHR => if b >= 0 then PowerPositive(2, b); Some(LInt(a / Power(2, b))) else None
       case EQ_OP => Some(LBool(a == b))
       case NEQ => Some(LBool(a != b))
       case LEQ => Some(LBool(a <= b))
       case LT => Some(LBool(a < b))
       case GEQ => Some(LBool(a >= b))
       case GT => Some(LBool(a > b))
       case _ => None)
    case (LBool(a), LBool(b)) =>
      (match op
       case BAND => Some(LBool(a && b))
       case BOR => Some(LBool(a || b))
       case BEQ => Some(LBool(a == b))
       case IMPL => Some(LBool(!a || b))
       case EQ_OP => Some(LBool(a == b))
       case NEQ => Some(LBool(a != b))
       case _ => None)
    case _ => None
  }

  function UnopValues(op: Unop, l: Literal): Option<Literal> {
    match (op, l)
    case (NEG, LInt(i)) => Some(LInt(-i))
    case (BNOT, LBool(b)) => Some(LBool(!b))
    case _ => None
  }

  // ---------------------------------------------------------------- what the operators compute

  ghost predicate Gives(op: Binop, a: int, b: int, c: int) {
    BinopValues(op, LInt(a), LInt(b)) == Some(LInt(c))
  }

  predicate Decides(op: Binop, a: int, b: int) {
    BinopValues(op, LInt(a), LInt(b)) == Some(LBool(true))
  }

  predicate Combines(op: Binop, a: bool, b: bool) {
    BinopValues(op, LBool(a), LBool(b)) == Some(LBool(true))
  }

  lemma QuotientBounds(a: int, b: int, q: int)
    requires b > 0
    ensures a / b == q <==> b * q <= a < b * (q + 1)
  {
    var r, s := a / b, a % b;
    assert a == b * r + s && 0 <= s < b;
    if b * q <= a < b * (q + 1) {
      if q < r {
        Monotone(b, q + 1, r);
      } else if r < q {
        Monotone(b, r + 1, q);
      }
    }
  }

  lemma Monotone(b: int, q: int, r: int)
    requires b > 0 && q <= r
    ensures b * q <= b * r
  {}

  /** Division rounds towards minus infinity, and fails unless the divisor is positive. */
  lemma DivisionSpec(a: int, b: int, c: int)
    ensures Gives(DIVRM, a, b, c) <==> b > 0 && b * c <= a < b * (c + 1)
    ensures Gives(MOD, a, b, c) <==> b > 0 && 0 <= c < b && exists q :: a == b * q + c
    ensures Gives(DIV, a, b, c) <==> b > 0 && a == b * c
  {
    if b > 0 {
      QuotientBounds(a, b, c);
      if q :| a == b * q + c && 0 <= c < b {
        QuotientBounds(a, b, q);
      }
      assert a == b * (a / b) + (a - b * (a / b));
      if a == b * c {
        QuotientBounds(a, b, c);
        assert a % b == 0;
      }
    }
  }

  /** Shifting divides by a power of two, rounding down, or multiplies by it; negative amounts fail. */
  lemma ShiftSpec(a: int, b: int, c: int)
    ensures Gives(SHR, a, b, c) <==> b >= 0 && Power(2, b) * c <= a < Power(2, b) * (c + 1)
    ensures Gives(SHL, a, b, c) <==> b >= 0 && c == a * Power(2, b)
    ensures b >= 0 ==> Gives(POW, 2, b, Power(2, b)) && Gives(POW, a, 0, 1) && Gives(POW, a, b + 1, a * Power(a, b))
    ensures b < 0 ==> !Gives(POW, a, b, c)
  {
    if b >= 0 {
      PowerPositive(2, b);
      QuotientBounds(a, Power(2, b), c);
    }
  }

  /** The comparisons are those of the order of the integers. */
  lemma ComparisonSpec(a: int, b: int)
    ensures Decides(LT, a, b) <==> b - a > 0
    ensures Decides(GT, a, b) <==> Decides(LT, b, a)
    ensures Decides(LEQ, a, b) <==> Decides(LT, a, b) || a == b
    ensures Decides(GEQ, a, b) <==> Decides(LT, b, a) || a == b
    ensures Decides(EQ_OP, a, b) <==> !Decides(LT, a, b) && !Decides(LT, b, a)
    ensures Decides(NEQ, a, b) <==> Decides(LT, a, b) || Decides(LT, b, a)
    ensures forall op :: op == LT || op == GT || op == LEQ || op == GEQ || op == EQ_OP || op == NEQ ==>
              BinopValues(op, LInt(a), LInt(b)) == Some(LBool(Decides(op, a, b)))
  {}

  /** The truth tables. */
  lemma BooleanSpec(a: bool, b: bool)
    ensures Combines(BAND, a, b) <==> a && b
    ensures Combines(BOR, a, b) <==> a || b
    ensures Combines(IMPL, a, b) <==> (a ==> b)
    ensures Combines(BEQ, a, b) <==> (a <==> b)
    ensures Combines(EQ_OP, a, b) <==> (a <==> b)
    ensures Combines(NEQ, a, b) <==> (a <==> !b)
    ensures UnopValues(BNOT, LBool(a)) == Some(LBool(!a))
  {}

  /** Boolean operators always give a Boolean. */
  lemma BooleanTotal(op: Binop, a: bool, b: bool)
    requires op in {BAND, BOR, IMPL, BEQ, EQ_OP, NEQ}
    ensures BinopValues(op, LBool(a), LBool(b)) == Some(LBool(Combines(op, a, b)))
  {}

  /** Sum, difference and negation undo each other; operands of different kinds fail. */
  lemma ArithmeticSpec(op: Binop, a: int, b: int, c: int, t: bool)
    ensures Gives(PLUS, a, b, c) <==> Gives(MINUS, c, b, a)
    ensures Gives(PLUS, a, b, c) <==> c - a == b
    ensures Gives(MUL, a, 0, 0) && Gives(MUL, a, b + 1, a * b + a) && Gives(MUL, a, -b, -(a * b))
    ensures UnopValues(NEG, LInt(a)) == Some(LInt(c)) <==> Gives(PLUS, a, c, 0)
    ensures BinopValues(op, LInt(a), LBool(t)) == BinopValues(op, LBool(t), LInt(a)) == None
    ensures UnopValues(BNOT, LInt(a)) == UnopValues(NEG, LBool(t)) == None
  {}

  // ---------------------------------------------------------------- evaluation

  /** static_eval, with the values of variables given by a lookup. */
  function Eval(e: Expr, look: Lookup): Option<Literal> {
    match e
    case ELiteral(l) => Some(l)
    case EVar(x) => look(x)
    case EBinop(op, e1, e2) =>
      var l1 :- Eval(e1, look);
      var l2 :- Eval(e2, look);
      BinopValues(op, l1, l2)
    case EUnop(op, e0) =>
      var l :- Eval(e0, look);
      UnopValues(op, l)
    case ECond(c, e1, e2) =>
      var l :- Eval(c, look);
      if l.LInt? then None else if l.b then Eval(e1, look) else Eval(e2, look)
  }

  /** What is known statically stays true when more variables have values. */
  lemma {:induction false} EvalMonotone(e: Expr, look: Lookup, more: Lookup)
    requires forall x :: look(x).Some? ==> more(x) == look(x)
    requires Eval(e, look).Some?
    ensures Eval(e, more) == Eval(e, look)
  {
    match e
    case ELiteral(_) =>
    case EVar(_) =>
    case EBinop(_, e1, e2) =>
      EvalMonotone(e1, look, more);
      EvalMonotone(e2, look, more);
    case EUnop(_, e0) =>
      EvalMonotone(e0, look, more);
    case ECond(c, e1, e2) =>
      EvalMonotone(c, look, more);
      if Eval(c, look).value.b {
        EvalMonotone(e1, look, more);
      } else {
        EvalMonotone(e2, look, more);
      }
  }

  // ---------------------------------------------------------------- environments

  /** The anonymous type of a variable, as far as to_ir looks at it. */
  datatype VarType = ExactInt(value: Expr) | OtherInt | NotInt

  /** The order says which variables were declared before which. */
  datatype Env = Env(constants: map<Atom, Literal>, types: map<Atom, VarType>, order: map<Atom, nat>)

  function Order(env: Env, x: Atom): nat {
    if x in env.order then env.order[x] else 0
  }

  function Max(a: nat, b: nat): nat {
    if a >= b then a else b
  }

  /** One more than the order of the last declared variable of e. */
  function Rank(env: Env, e: Expr): nat {
    match e
    case ELiteral(_) => 0
    case EVar(x) => Order(env, x) + 1
    case EBinop(_, e1, e2) => Max(Rank(env, e1), Rank(env, e2))
    case EUnop(_, e0) => Rank(env, e0)
    case ECond(c, e1, e2) => Max(Rank(env, c), Max(Rank(env, e1), Rank(env, e2)))
  }

  /** An exact constraint on a variable only mentions variables declared before it. */
  ghost predicate DeclaredInOrder(env: Env) {
    forall x :: x in env.types && env.types[x].ExactInt? ==> Rank(env, env.types[x].value) <= Order(env, x)
  }

  function StaticLookup(env: Env): Lookup {
    x => if x in env.constants then Some(env.constants[x]) else None
  }

  ghost function LookupIn(env: Env, v: Valuation): Lookup {
    x =>
      if x in env.constants then Some(env.constants[x])
      else if x in env.types && !env.types[x].NotInt? then Some(LInt(v(x)))
      else None
  }

  /** The value of e in env at v. */
  ghost function ValueIn(env: Env, e: Expr, v: Valuation): Option<Literal> {
    Eval(e, LookupIn(env, v))
  }

  predicate OnlyConstants(env: Env, e: Expr) {
    match e
    case ELiteral(_) => true
    case EVar(x) => x in env.constants
    case EBinop(_, e1, e2) => OnlyConstants(env, e1) && OnlyConstants(env, e2)
    case EUnop(_, e0) => OnlyConstants(env, e0)
    case ECond(c, e1, e2) => OnlyConstants(env, c) && OnlyConstants(env, e1) && OnlyConstants(env, e2)
  }

  /** Static evaluation finds the value of every expression over constants. */
  lemma {:induction false} StaticValue(env: Env, e: Expr, v: Valuation)
    requires OnlyConstants(env, e)
    ensures Eval(e, StaticLookup(env)) == ValueIn(env, e, v)
  {
    match e
    case ELiteral(_) =>
    case EVar(_) =>
    case EBinop(_, e1, e2) =>
      StaticValue(env, e1, v);
      StaticValue(env, e2, v);
    case EUnop(_, e0) =>
      StaticValue(env, e0, v);
    case ECond(c, e1, e2) =>
      StaticValue(env, c, v);
      StaticValue(env, e1, v);
      StaticValue(env, e2, v);
  }

  /** v respects the exact constraints of the types in env. */
  ghost predicate Consistent(env: Env, v: Valuation) {
    forall x :: x in env.types && x !in env.constants && env.types[x].ExactInt? ==>
      ValueIn(env, env.types[x].value, v) == Some(LInt(v(x)))
  }
}
