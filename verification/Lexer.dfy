/** The off-side rule: INDENT and DEDENT tokens from columns (asllib/lexer0.ml). */
module Lexer {
  /** Tokens; only the ones that matter here are told apart. */
  datatype Token = EOL | EOF | INDENT | DEDENT | Starter(text: string) | Ender(text: string) | Other(text: string)

  /** A token of the underlying lexer with the column where it starts. */
  datatype Raw = Raw(tok: Token, col: nat)

  predicate IsRaw(t: Token) {
    !t.EOF? && !t.INDENT? && !t.DEDENT?
  }

  /** What is read before the end of the file. */
  predicate RawStream(buf: seq<Raw>) {
    forall r :: r in buf ==> IsRaw(r.tok)
  }

  datatype State = State(stack: seq<int>, parens: nat, newline: bool, next: Raw, buf: seq<Raw>)

  /** The indentation history, innermost first, strictly decreasing down to 0. */
  predicate StackOk(stack: seq<int>) {
    && stack != [] && stack[|stack| - 1] == 0
    && forall i, j :: 0 <= i < j < |stack| ==> stack[i] > stack[j]
  }

  predicate Ok(s: State) {
    && StackOk(s.stack) && RawStream(s.buf) && (IsRaw(s.next.tok) || (s.next.tok.EOF? && s.buf == []))
    && (s.newline ==> !s.next.tok.EOL? && s.parens == 0)
  }

  // ---------------------------------------------------------------- one call of the lexer

  function Peek(buf: seq<Raw>): Raw {
    if buf == [] then Raw(EOF, 0) else buf[0]
  }

  function Tail(buf: seq<Raw>): seq<Raw> {
    if buf == [] then [] else buf[1..]
  }

  function Parens(parens: nat, t: Token): nat {
    if t.Starter? then parens + 1 else if parens > 0 && t.Ender? then parens - 1 else parens
  }

  /** The state after useToken. */
  function Use(s: State): State {
    State(s.stack, Parens(s.parens, s.next.tok), s.newline, Peek(s.buf), Tail(s.buf))
  }

  function Remaining(s: State): nat {
    |s.buf| + if s.next.tok.EOF? then 0 else 1
  }

  /** Reads on while there are ends of line. */
  function SkipEol(s: State): (r: State)
    decreases Remaining(s)
  {
    if s.next.tok.EOL? then SkipEol(Use(s)) else s
  }

  /** The next state and the token produced. */
  function Step(s: State): (State, Token)
    requires Ok(s)
  {
    if s.parens > 0 then
      var s' := SkipEol(s);
      (Use(s'), s'.next.tok)
    else if s.next.tok.EOF? then
      if |s.stack| <= 1 then (s, EOF) else (s.(stack := s.stack[1..]), DEDENT)
    else if s.next.tok.EOL? then
      (SkipEol(s.(newline := true)), EOL)
    else if s.newline then
      var col := s.next.col;
      if col > s.stack[0] then (s.(newline := false, stack := [col] + s.stack), INDENT)
      else if col == s.stack[0] then (Use(s.(newline := false)), s.next.tok)
      else
        assert |s.stack| > 1;
        (s.(stack := s.stack[1..], newline := col != s.stack[1]), DEDENT)
    else (Use(s), s.next.tok)
  }

  lemma {:induction false} SkipEolSpec(s: State)
    requires StackOk(s.stack) && RawStream(s.buf) && (IsRaw(s.next.tok) || (s.next.tok.EOF? && s.buf == []))
    ensures var r := SkipEol(s);
            && r.stack == s.stack && r.parens == s.parens && r.newline == s.newline && !r.next.tok.EOL?
            && RawStream(r.buf) && (IsRaw(r.next.tok) || (r.next.tok.EOF? && r.buf == []))
            && Remaining(r) <= Remaining(s) && (s.next.tok.EOL? ==> Remaining(r) < Remaining(s))
    decreases Remaining(s)
  {
    if s.next.tok.EOL? {
      SkipEolSpec(Use(s));
    }
  }

  /** What makes a run end: tokens read, then the flag, then the stack. */
  ghost predicate Smaller(s': State, s: State) {
    || Remaining(s') < Remaining(s)
    || (Remaining(s') == Remaining(s) && !s'.newline && s.newline)
    || (Remaining(s') == Remaining(s) && s'.newline == s.newline && |s'.stack| < |s.stack|)
  }

  /** Every call keeps the invariant; the stack is never empty, and unless the token is EOF the rest is smaller. */
  lemma StepSpec(s: State)
    requires Ok(s)
    ensures Ok(Step(s).0) && (Step(s).1 != EOF ==> Smaller(Step(s).0, s))
  {
    hide SkipEol;
    if s.parens > 0 {
      SkipEolSpec(s);
    } else if s.next.tok.EOL? {
      SkipEolSpec(s.(newline := true));
    }
  }

  /** All the tokens up to EOF. */
  function Tokens(s: State): (r: seq<Token>)
    requires Ok(s)
    decreases Remaining(s), s.newline, |s.stack|
  {
    StepSpec(s);
    var (s', t) := Step(s);
    if t.EOF? then [EOF] else [t] + Tokens(s')
  }

  /** The first state: an end of line comes before the file. */
  function Init(raw: seq<Raw>): State {
    State([0], 0, false, Raw(EOL, 0), raw)
  }

  // ---------------------------------------------------------------- the rule, one raw token at a time

  /** The stack once a line starts at this column. */
  function Layout(stack: seq<int>, col: nat): seq<int> {
    if stack == [] then []
    else if col < stack[0] then Layout(stack[1..], col)
    else if col == stack[0] then stack
    else [col] + stack
  }

  /** The tokens for the changes of the stack. */
  function Moves(stack: seq<int>, col: nat): seq<Token> {
    if stack == [] then []
    else if col < stack[0] then [DEDENT] + Moves(stack[1..], col)
    else if col == stack[0] then []
    else [INDENT]
  }

  function Dedents(n: nat): seq<Token> {
    if n == 0 then [] else [DEDENT] + Dedents(n - 1)
  }

  /**
   * Ends of line count once, and not inside parentheses; the first token of a line is preceded by the
   * changes of indentation; at the end everything is closed, unless a parenthesis is still open.
   */
  function Offside(raw: seq<Raw>, stack: seq<int>, parens: nat, start: bool): seq<Token> {
    if raw == [] then if parens > 0 || stack == [] then [EOF] else Dedents(|stack| - 1) + [EOF]
    else
      var t, rest := raw[0], raw[1..];
      if t.tok.EOL? then
        if parens > 0 || start then Offside(rest, stack, parens, start)
        else [EOL] + Offside(rest, stack, parens, true)
      else if start then Moves(stack, t.col) + ([t.tok] + Offside(rest, Layout(stack, t.col), Parens(parens, t.tok), false))
      else [t.tok] + Offside(rest, stack, Parens(parens, t.tok), false)
  }

  // ---------------------------------------------------------------- the lexer follows the rule

  function Pending(s: State): seq<Raw> {
    if s.next.tok.EOF? then [] else [s.next] + s.buf
  }

  lemma {:induction false} SkipEolOffside(s: State, start: bool)
    requires (IsRaw(s.next.tok) || (s.next.tok.EOF? && s.buf == [])) && RawStream(s.buf)
    requires s.parens > 0 || start
    ensures Offside(Pending(s), s.stack, s.parens, start) == Offside(Pending(SkipEol(s)), s.stack, s.parens, start)
    decreases Remaining(s)
  {
    if s.next.tok.EOL? {
      assert Pending(s)[1..] == s.buf == Pending(Use(s));
      SkipEolOffside(Use(s), start);
    }
  }

  /** The stateful lexer produces exactly the tokens of the off-side rule. */
  lemma {:induction false} TokensAreOffside(s: State)
    requires Ok(s)
    ensures Tokens(s) == Offside(Pending(s), s.stack, s.parens, s.newline)
    decreases Remaining(s), s.newline, |s.stack|
  {
    hide SkipEol; hide Ok;
    StepSpec(s);
    if Step(s).1 != EOF {
      TokensAreOffside(Step(s).0);
    }
    StepOffside(s);
  }

  /** One call gives the first token of the rule. */
  lemma StepOffside(s: State)
    requires Ok(s)
    ensures var (s', t) := Step(s);
            Offside(Pending(s), s.stack, s.parens, s.newline) ==
            if t.EOF? then [EOF] else [t] + Offside(Pending(s'), s'.stack, s'.parens, s'.newline)
  {
    hide SkipEol;
    if s.parens > 0 {
      SkipEolSpec(s);
      SkipEolOffside(s, false);
      TokenOffside(SkipEol(s));
    } else if s.next.tok.EOF? {
    } else if s.next.tok.EOL? {
      SkipEolSpec(s.(newline := true));
      SkipEolOffside(s.(newline := true), true);
      assert Pending(s)[0] == s.next;
      LineOffside(s);
    } else if s.newline {
      MoveOffside(s);
    } else {
      TokenOffside(s);
    }
  }

  lemma TokenOffside(s: State)
    requires (IsRaw(s.next.tok) || (s.next.tok.EOF? && s.buf == [])) && RawStream(s.buf) && !s.next.tok.EOL?
    requires s.next.tok.EOF? ==> s.parens > 0
    ensures var s' := Use(s);
            Offside(Pending(s), s.stack, s.parens, false) ==
            if s.next.tok.EOF? then [EOF] else [s.next.tok] + Offside(Pending(s'), s'.stack, s'.parens, false)
  {
    if !s.next.tok.EOF? {
      assert Pending(s)[1..] == s.buf == Pending(Use(s));
    }
  }

  /** Ends of line seen at the start of a line count as one. */
  lemma LineOffside(s: State)
    requires Ok(s) && s.parens == 0 && s.next.tok.EOL?
    ensures Offside(Pending(s), s.stack, 0, false) == [EOL] + Offside(Pending(s), s.stack, 0, true)
  {
    assert Pending(s)[1..] == s.buf;
  }

  lemma MoveOffside(s: State)
    requires Ok(s) && s.newline && IsRaw(s.next.tok)
    ensures var (s', t) := Step(s);
            Offside(Pending(s), s.stack, 0, true) == [t] + Offside(Pending(s'), s'.stack, s'.parens, s'.newline)
  {
    var rest := s.buf;
    assert Pending(s)[1..] == rest && Pending(s)[0] == s.next;
    var col := s.next.col;
    var x := [s.next.tok] + Offside(rest, Layout(s.stack, col), Parens(0, s.next.tok), false);
    assert Offside(Pending(s), s.stack, 0, true) == Moves(s.stack, col) + x;
    if col == s.stack[0] {
      assert Pending(Use(s)) == rest && [] + x == x;
    } else if col < s.stack[0] {
      var tail := s.stack[1..];
      assert tail[0] == s.stack[1] && Layout(s.stack, col) == Layout(tail, col) && Moves(s.stack, col) == [DEDENT] + Moves(tail, col);
      if col == tail[0] {
        assert Layout(tail, col) == tail && Moves(tail, col) == [];
        assert Offside(Pending(s), tail, 0, false) == x;
      } else {
        assert Offside(Pending(s), tail, 0, true) == Moves(tail, col) + x;
      }
      assert ([DEDENT] + Moves(tail, col)) + x == [DEDENT] + (Moves(tail, col) + x);
      assert [] + x == x;
    }
  }

  /** The whole file. */
  lemma FileOffside(raw: seq<Raw>)
    requires RawStream(raw)
    ensures Ok(Init(raw)) && Tokens(Init(raw)) == [EOL] + Offside(raw, [0], 0, true)
  {
    var s := Init(raw);
    TokensAreOffside(s);
    LineOffside(s);
    assert Pending(s)[0].tok.EOL? && Pending(s)[1..] == raw;
  }

  // ---------------------------------------------------------------- what the rule guarantees

  /** The columns still open at a line of column col: the smaller ones, and col itself. */
  lemma {:induction false} LayoutSpec(stack: seq<int>, col: nat)
    requires StackOk(stack)
    ensures StackOk(Layout(stack, col)) && Layout(stack, col)[0] == col
    ensures forall x :: x in Layout(stack, col) <==> x == col || (x in stack && x < col)
  {
    if col < stack[0] {
      assert forall i :: 0 <= i < |stack| - 1 ==> stack[1..][i] == stack[i + 1];
      LayoutSpec(stack[1..], col);
      assert forall x :: x in stack <==> x == stack[0] || x in stack[1..];
    } else if col > stack[0] {
      assert forall x :: x in stack ==> x < col;
    } else {
      assert forall x :: x in stack <==> x == stack[0] || x in stack[1..];
    }
  }

  function Delta(t: Token): int {
    if t.INDENT? then 1 else if t.DEDENT? then -1 else 0
  }

  /** How many more INDENT than DEDENT. */
  function Balance(ts: seq<Token>): int {
    if ts == [] then 0 else Delta(ts[0]) + Balance(ts[1..])
  }

  lemma StepDelta(s: State)
    requires Ok(s)
    ensures |Step(s).0.stack| - |s.stack| == Delta(Step(s).1)
  {
    hide SkipEol;
    if s.parens > 0 {
      SkipEolSpec(s);
    } else if s.next.tok.EOL? {
      SkipEolSpec(s.(newline := true));
    }
  }

  /** No prefix of the output closes more than was open. */
  lemma {:induction false} PrefixBalance(s: State, k: nat)
    requires Ok(s) && k <= |Tokens(s)|
    ensures Balance(Tokens(s)[..k]) >= 1 - |s.stack|
    decreases k
  {
    hide Ok; hide Step;
    OkStack(s);
    if k > 0 {
      StepSpec(s);
      StepDelta(s);
      var (s', t) := Step(s);
      TokensStep(s);
      if t.EOF? {
        assert Tokens(s)[..k] == [EOF];
      } else {
        assert Tokens(s)[..k] == [t] + Tokens(s')[..k - 1];
        PrefixBalance(s', k - 1);
      }
    }
  }

  lemma OkStack(s: State)
    requires Ok(s)
    ensures |s.stack| >= 1
  {}

  lemma TokensStep(s: State)
    requires Ok(s)
    ensures var (s', t) := Step(s); Ok(s') && Tokens(s) == if t.EOF? then [EOF] else [t] + Tokens(s')
  {
    StepSpec(s);
  }

  /** The open parentheses once everything is read. */
  function LastParens(raw: seq<Raw>, parens: nat): nat {
    if raw == [] then parens else LastParens(raw[1..], Parens(parens, raw[0].tok))
  }

  /** The columns still open after the last line. */
  function LastStack(raw: seq<Raw>, stack: seq<int>, parens: nat, start: bool): seq<int> {
    if raw == [] then stack
    else
      var t, rest := raw[0], raw[1..];
      if t.tok.EOL? then LastStack(rest, stack, parens, start || parens == 0)
      else LastStack(rest, if start then Layout(stack, t.col) else stack, Parens(parens, t.tok), false)
  }

  lemma {:induction false} BalanceAppend(a: seq<Token>, b: seq<Token>)
    ensures Balance(a + b) == Balance(a) + Balance(b)
  {
    if a == [] {
      assert a + b == b;
    } else {
      assert (a + b)[1..] == a[1..] + b;
      BalanceAppend(a[1..], b);
    }
  }

  lemma {:induction false} BalanceMoves(stack: seq<int>, col: nat)
    requires StackOk(stack)
    ensures Balance(Moves(stack, col)) == |Layout(stack, col)| - |stack|
  {
    if col < stack[0] {
      var tail := stack[1..];
      assert forall i :: 0 <= i < |tail| ==> tail[i] == stack[i + 1];
      BalanceMoves(tail, col);
      assert ([DEDENT] + Moves(tail, col))[1..] == Moves(tail, col);
    } else if col > stack[0] {
      assert [INDENT][1..] == [];
    }
  }

  lemma {:induction false} BalanceDedents(n: nat)
    ensures Balance(Dedents(n)) == 0 - n
  {
    if n > 0 {
      BalanceDedents(n - 1);
      assert Dedents(n)[1..] == Dedents(n - 1);
    }
  }

  lemma BalanceOne(t: Token, ts: seq<Token>)
    ensures Balance([t] + ts) == Delta(t) + Balance(ts)
  {
    assert ([t] + ts)[1..] == ts;
  }

  lemma BalanceEof(n: nat)
    ensures Balance([EOF]) == 0 && Balance(Dedents(n) + [EOF]) == 0 - n
  {
    assert [EOF][1..] == [];
    BalanceDedents(n);
    BalanceAppend(Dedents(n), [EOF]);
  }

  /** What is closed in the end is everything, or with an open parenthesis nothing. */
  lemma {:induction false} OffsideBalance(raw: seq<Raw>, stack: seq<int>, parens: nat, start: bool)
    requires RawStream(raw) && StackOk(stack)
    ensures Balance(Offside(raw, stack, parens, start)) ==
            (if LastParens(raw, parens) == 0 then 1 else |LastStack(raw, stack, parens, start)|) - |stack|
    decreases |raw|
  {
    hide Moves; hide Layout; hide Parens; hide Dedents; hide Balance; hide StackOk;
    StackNonempty(stack);
    if raw == [] {
      BalanceEof(|stack| - 1);
    } else {
      var t, rest := raw[0], raw[1..];
      if t.tok.EOL? {
        EolKeepsParens(parens);
        OffsideBalance(rest, stack, parens, start || parens == 0);
        BalanceOne(EOL, Offside(rest, stack, parens, true));
      } else {
        var stack' := if start then Layout(stack, t.col) else stack;
        var tail := Offside(rest, stack', Parens(parens, t.tok), false);
        if start {
          LayoutSpec(stack, t.col);
          BalanceMoves(stack, t.col);
          BalanceAppend(Moves(stack, t.col), [t.tok] + tail);
        }
        OffsideBalance(rest, stack', Parens(parens, t.tok), false);
        BalanceOne(t.tok, tail);
      }
    }
  }

  lemma StackNonempty(stack: seq<int>)
    requires StackOk(stack)
    ensures |stack| >= 1
  {}

  lemma EolKeepsParens(parens: nat)
    ensures Parens(parens, EOL) == parens
  {}

  // ---------------------------------------------------------------- the rule by counting parentheses

  function Starters(raw: seq<Raw>): nat {
    if raw == [] then 0 else Starters(raw[..|raw| - 1]) + if raw[|raw| - 1].tok.Starter? then 1 else 0
  }

  function Enders(raw: seq<Raw>): nat {
    if raw == [] then 0 else Enders(raw[..|raw| - 1]) + if raw[|raw| - 1].tok.Ender? then 1 else 0
  }

  /** How many more starters than enders. */
  function Excess(raw: seq<Raw>): int {
    Starters(raw) - Enders(raw)
  }

  /** n starters are unclosed after raw: no part up to the end has a larger excess, and some part has it. */
  ghost predicate OpenAfter(raw: seq<Raw>, n: int) {
    && (exists k :: 0 <= k <= |raw| && Excess(raw[k..]) == n)
    && forall k :: 0 <= k <= |raw| ==> Excess(raw[k..]) <= n
  }

  /** Some starter is unclosed after raw: some part up to the end has more starters than enders. */
  ghost predicate Unclosed(raw: seq<Raw>) {
    exists k :: 0 <= k <= |raw| && Excess(raw[k..]) > 0
  }

  lemma ExcessAppend(raw: seq<Raw>, t: Raw)
    ensures Excess(raw + [t]) == Excess(raw) + (if t.tok.Starter? then 1 else 0) - (if t.tok.Ender? then 1 else 0)
  {
    assert (raw + [t])[..|raw|] == raw;
  }

  /** The counter of the lexer is the number of unclosed starters; an unmatched ender is ignored. */
  lemma OpenStep(raw: seq<Raw>, t: Raw, n: nat)
    requires OpenAfter(raw, n)
    ensures OpenAfter(raw + [t], Parens(n, t.tok))
  {
    hide Excess;
    var w, m := raw + [t], Parens(n, t.tok);
    forall k | 0 <= k <= |raw|
      ensures Excess(w[k..]) == Excess(raw[k..]) + (if t.tok.Starter? then 1 else 0) - (if t.tok.Ender? then 1 else 0)
    {
      assert w[k..] == raw[k..] + [t];
      ExcessAppend(raw[k..], t);
    }
    ExcessEmpty();
    assert w[|w|..] == [];
    var k :| 0 <= k <= |raw| && Excess(raw[k..]) == n;
    assert Excess(w[k..]) == m || Excess(w[|w|..]) == m;
  }

  lemma ExcessEmpty()
    ensures Excess([]) == 0 && OpenAfter([], 0)
  {
    var w: seq<Raw> := [];
    assert w[0..] == [];
  }

  lemma UnclosedIff(raw: seq<Raw>, n: int)
    requires OpenAfter(raw, n)
    ensures Unclosed(raw) <==> n > 0
  {
    hide Excess;
  }

  /** When no prefix has more enders than starters, what is unclosed is the difference over all. */
  lemma {:induction false} ExcessOpen(raw: seq<Raw>)
    requires forall k :: 0 <= k <= |raw| ==> Excess(raw[..k]) >= 0
    ensures OpenAfter(raw, Excess(raw))
  {
    if raw == [] {
      ExcessEmpty();
    } else {
      hide Excess; hide OpenAfter;
      var init, t := raw[..|raw| - 1], raw[|raw| - 1];
      assert forall k :: 0 <= k <= |init| ==> init[..k] == raw[..k];
      ExcessOpen(init);
      assert raw == init + [t];
      assert raw[..|init|] == init && raw[..|raw|] == raw;
      ExcessAppend(init, t);
      OpenStep(init, t, Excess(init));
    }
  }

  predicate LineStart(raw: seq<Raw>, i: nat)
    requires i <= |raw|
  {
    i == 0 || raw[i - 1].tok.EOL?
  }

  /** The tokens for the file from its i-th raw token on, with these columns open. */
  ghost function Rule(raw: seq<Raw>, i: nat, stack: seq<int>): seq<Token>
    requires i <= |raw|
    decreases |raw| - i
  {
    if i == |raw| then if Unclosed(raw) || stack == [] then [EOF] else Dedents(|stack| - 1) + [EOF]
    else if Unclosed(raw[..i]) then (if raw[i].tok.EOL? then [] else [raw[i].tok]) + Rule(raw, i + 1, stack)
    else if raw[i].tok.EOL? then (if LineStart(raw, i) then [] else [EOL]) + Rule(raw, i + 1, stack)
    else if LineStart(raw, i) then Moves(stack, raw[i].col) + ([raw[i].tok] + Rule(raw, i + 1, Layout(stack, raw[i].col)))
    else [raw[i].tok] + Rule(raw, i + 1, stack)
  }

  /** The columns open at the end of the file. */
  ghost function Columns(raw: seq<Raw>, i: nat, stack: seq<int>): seq<int>
    requires i <= |raw|
    decreases |raw| - i
  {
    if i == |raw| then stack
    else
      Columns(raw, i + 1,
        if !Unclosed(raw[..i]) && !raw[i].tok.EOL? && LineStart(raw, i) then Layout(stack, raw[i].col) else stack)
  }

  /** The counter and the flag of the lexer at the i-th raw token. */
  ghost predicate Tracks(raw: seq<Raw>, i: nat, parens: nat, start: bool)
    requires i <= |raw|
  {
    OpenAfter(raw[..i], parens) && (start <==> parens == 0 && LineStart(raw, i))
  }

  lemma TracksStep(raw: seq<Raw>, i: nat, parens: nat, start: bool)
    requires i < |raw| && Tracks(raw, i, parens, start)
    ensures var t := raw[i].tok;
            Tracks(raw, i + 1, Parens(parens, t), if t.EOL? then start || parens == 0 else false)
            && (Unclosed(raw[..i]) <==> parens > 0)
  {
    hide OpenAfter; hide Unclosed;
    assert raw[..i + 1] == raw[..i] + [raw[i]];
    OpenStep(raw[..i], raw[i], parens);
    UnclosedIff(raw[..i], parens);
  }

  lemma {:induction false} RuleOffside(raw: seq<Raw>, i: nat, stack: seq<int>, parens: nat, start: bool)
    requires RawStream(raw) && i <= |raw| && Tracks(raw, i, parens, start)
    ensures Offside(raw[i..], stack, parens, start) == Rule(raw, i, stack)
    ensures LastStack(raw[i..], stack, parens, start) == Columns(raw, i, stack)
    ensures LastParens(raw[i..], parens) > 0 <==> Unclosed(raw)
    decreases |raw| - i
  {
    hide Tracks; hide Unclosed; hide Moves; hide Layout; hide Parens; hide Dedents; hide OpenAfter;
    if i == |raw| {
      TracksEnd(raw, parens, start);
      assert raw[i..] == [];
    } else {
      var t, rest := raw[i], raw[i + 1..];
      assert raw[i..][0] == t && raw[i..][1..] == rest;
      TracksStep(raw, i, parens, start);
      TracksStart(raw, i, parens, start);
      EolKeepsParens(parens);
      var stack' := if start && !t.tok.EOL? then Layout(stack, t.col) else stack;
      RuleOffside(raw, i + 1, stack', Parens(parens, t.tok), if t.tok.EOL? then start || parens == 0 else false);
      assert forall ts: seq<Token> :: [] + ts == ts;
    }
  }

  lemma TracksEnd(raw: seq<Raw>, parens: nat, start: bool)
    requires Tracks(raw, |raw|, parens, start)
    ensures Unclosed(raw) <==> parens > 0
  {
    hide OpenAfter;
    assert raw[..|raw|] == raw;
    UnclosedIff(raw, parens);
  }

  lemma TracksStart(raw: seq<Raw>, i: nat, parens: nat, start: bool)
    requires i <= |raw| && Tracks(raw, i, parens, start)
    ensures start <==> parens == 0 && LineStart(raw, i)
  {}

  /** The tokens of a file, by the rule that counts parentheses. */
  lemma FileRule(raw: seq<Raw>)
    requires RawStream(raw)
    ensures Ok(Init(raw)) && Tokens(Init(raw)) == [EOL] + Rule(raw, 0, [0])
  {
    FileOffside(raw);
    TracksInit(raw);
    RuleOffside(raw, 0, [0], 0, true);
    assert raw[0..] == raw;
  }

  lemma TracksInit(raw: seq<Raw>)
    ensures Tracks(raw, 0, 0, true)
  {
    ExcessEmpty();
    assert raw[..0] == [];
  }

  lemma {:induction false} EolDropped(a: seq<Raw>, eol: Raw, b: seq<Raw>, stack: seq<int>, parens: nat, start: bool)
    requires LastParens(a, parens) > 0 && eol.tok.EOL?
    ensures Offside(a + [eol] + b, stack, parens, start) == Offside(a + b, stack, parens, start)
    decreases |a|
  {
    hide Moves; hide Layout; hide Dedents;
    var ab, aeb := a + b, a + [eol] + b;
    if a == [] {
      assert ab == b && aeb[0] == eol && aeb[1..] == b;
    } else {
      var t, rest := a[0], a[1..];
      assert ab[0] == aeb[0] == t && ab[1..] == rest + b && aeb[1..] == rest + [eol] + b;
      EolDropped(rest, eol, b, stack, Parens(parens, t.tok), start || parens == 0);
      EolDropped(rest, eol, b, stack, Parens(parens, t.tok), start);
      EolDropped(rest, eol, b, stack, Parens(parens, t.tok), true);
      EolDropped(rest, eol, b, Layout(stack, t.col), Parens(parens, t.tok), false);
      EolDropped(rest, eol, b, stack, Parens(parens, t.tok), false);
    }
  }

  /** An end of line after an unclosed starter makes no difference to the output. */
  lemma EolInParentheses(a: seq<Raw>, eol: Raw, b: seq<Raw>)
    requires RawStream(a) && RawStream(b) && eol.tok.EOL? && Unclosed(a)
    ensures Ok(Init(a + [eol] + b)) && Ok(Init(a + b))
    ensures Tokens(Init(a + [eol] + b)) == Tokens(Init(a + b))
  {
    hide Unclosed;
    FileOffside(a + [eol] + b);
    FileOffside(a + b);
    TracksInit(a);
    RuleOffside(a, 0, [0], 0, true);
    assert a[0..] == a;
    EolDropped(a, eol, b, [0], 0, true);
  }

  /**
   * INDENT and DEDENT match over a file exactly when no starter is unclosed at its end, or only column 0 is open there.
   */
  lemma FileBalanced(raw: seq<Raw>)
    requires RawStream(raw)
    ensures Ok(Init(raw))
    ensures Balance(Tokens(Init(raw))) == 0 <==> !Unclosed(raw) || |Columns(raw, 0, [0])| == 1
    ensures forall k :: 0 <= k <= |Tokens(Init(raw))| ==> Balance(Tokens(Init(raw))[..k]) >= 0
  {
    hide Unclosed; hide Columns; hide Rule;
    FileOffside(raw);
    forall k | 0 <= k <= |Tokens(Init(raw))|
      ensures Balance(Tokens(Init(raw))[..k]) >= 0
    {
      PrefixBalance(Init(raw), k);
    }
    TracksInit(raw);
    RuleOffside(raw, 0, [0], 0, true);
    assert raw[0..] == raw;
    OffsideBalance(raw, [0], 0, true);
    BalanceOne(EOL, Offside(raw, [0], 0, true));
  }

  /** A parenthesis that is still open at the end of the file leaves an INDENT unmatched. */
  lemma OpenParenthesisUnbalanced()
    ensures var raw := [Raw(Starter("("), 2)];
            RawStream(raw) && Tokens(Init(raw)) == [EOL, INDENT, Starter("("), EOF]
  {
    var raw := [Raw(Starter("("), 2)];
    FileOffside(raw);
    assert raw[1..] == [];
  }

  /** EOF is produced once, as the last token. */
  lemma {:induction false} EofLast(s: State)
    requires Ok(s)
    ensures var ts := Tokens(s);
            ts != [] && forall i :: 0 <= i < |ts| ==> (ts[i].EOF? <==> i == |ts| - 1)
    decreases Remaining(s), s.newline, |s.stack|
  {
    hide Ok; hide Step;
    StepSpec(s);
    TokensStep(s);
    var (s', t) := Step(s);
    if t != EOF {
      EofLast(s');
    }
  }

  // ---------------------------------------------------------------- nothing is lost

  predicate IsLayout(t: Token) {
    t.EOL? || t.INDENT? || t.DEDENT?
  }

  function Erase(ts: seq<Token>): seq<Token> {
    if ts == [] then [] else (if IsLayout(ts[0]) then [] else [ts[0]]) + Erase(ts[1..])
  }

  function Words(raw: seq<Raw>): seq<Token> {
    if raw == [] then [] else (if raw[0].tok.EOL? then [] else [raw[0].tok]) + Words(raw[1..])
  }

  lemma {:induction false} EraseMoves(ts: seq<Token>, stack: seq<int>, col: nat)
    ensures Erase(Moves(stack, col) + ts) == Erase(ts)
  {
    var m := Moves(stack, col);
    if m == [] {
      assert m + ts == ts;
    } else {
      assert (m + ts)[1..] == m[1..] + ts;
      if col < stack[0] {
        EraseMoves(ts, stack[1..], col);
      } else {
        assert m[1..] + ts == ts;
      }
    }
  }

  lemma {:induction false} EraseDedents(n: nat, ts: seq<Token>)
    ensures Erase(Dedents(n) + ts) == Erase(ts)
  {
    if n == 0 {
      assert Dedents(0) + ts == ts;
    } else {
      assert (Dedents(n) + ts)[1..] == Dedents(n - 1) + ts;
      EraseDedents(n - 1, ts);
    }
  }

  /** Erasing the layout tokens gives the tokens of the file, without its ends of line, and EOF. */
  lemma {:induction false} EraseOffside(raw: seq<Raw>, stack: seq<int>, parens: nat, start: bool)
    requires RawStream(raw)
    ensures Erase(Offside(raw, stack, parens, start)) == Words(raw) + [EOF]
    decreases |raw|
  {
    hide Moves; hide Layout; hide Parens; hide Dedents; hide Offside; hide Erase; hide Words;
    OffsideOne(raw, stack, parens, start);
    if raw == [] {
      EraseEof();
      if !(parens > 0 || stack == []) {
        EraseDedents(|stack| - 1, [EOF]);
      }
    } else {
      var t, rest := raw[0], raw[1..];
      WordsOne(raw);
      if t.tok.EOL? {
        EraseOffside(rest, stack, parens, start || parens == 0);
        EraseOne(EOL, Offside(rest, stack, parens, true));
      } else {
        var stack' := if start then Layout(stack, t.col) else stack;
        var tail := Offside(rest, stack', Parens(parens, t.tok), false);
        EraseOffside(rest, stack', Parens(parens, t.tok), false);
        EraseOne(t.tok, tail);
        EraseMoves([t.tok] + tail, stack, t.col);
        assert [t.tok] + Words(rest) + [EOF] == [t.tok] + (Words(rest) + [EOF]);
      }
    }
  }

  lemma OffsideOne(raw: seq<Raw>, stack: seq<int>, parens: nat, start: bool)
    ensures raw == [] ==>
      Offside(raw, stack, parens, start) == if parens > 0 || stack == [] then [EOF] else Dedents(|stack| - 1) + [EOF]
    ensures raw != [] ==>
      var t, rest := raw[0], raw[1..];
      Offside(raw, stack, parens, start) ==
        if t.tok.EOL? then
          if parens > 0 || start then Offside(rest, stack, parens, start) else [EOL] + Offside(rest, stack, parens, true)
        else if start then
          Moves(stack, t.col) + ([t.tok] + Offside(rest, Layout(stack, t.col), Parens(parens, t.tok), false))
        else [t.tok] + Offside(rest, stack, Parens(parens, t.tok), false)
  {}

  lemma WordsOne(raw: seq<Raw>)
    ensures raw == [] ==> Words(raw) == []
    ensures raw != [] ==> Words(raw) == (if raw[0].tok.EOL? then [] else [raw[0].tok]) + Words(raw[1..])
  {}

  lemma EraseOne(t: Token, ts: seq<Token>)
    ensures Erase([t] + ts) == (if IsLayout(t) then [] else [t]) + Erase(ts)
  {
    assert ([t] + ts)[1..] == ts;
  }

  lemma EraseEof()
    ensures Erase([EOF]) == [EOF] && Words([]) == []
  {
    assert [EOF][1..] == [];
  }

  lemma FileErased(raw: seq<Raw>)
    requires RawStream(raw)
    ensures Ok(Init(raw)) && Erase(Tokens(Init(raw))) == Words(raw) + [EOF]
  {
    FileOffside(raw);
    EraseOffside(raw, [0], 0, true);
    EraseOne(EOL, Offside(raw, [0], 0, true));
  }

  // ---------------------------------------------------------------- the lexer object

  class OffsideLexer {
    var stack: seq<int>
    var parens: nat
    var newline: bool
    var next: Raw
    var buf: seq<Raw>

    function Now(): State
      reads this
    {
      State(stack, parens, newline, next, buf)
    }

    constructor (raw: seq<Raw>)
      ensures Now() == Init(raw)
    {
      stack, parens, newline, next, buf := [0], 0, false, Raw(EOL, 0), raw;
    }

    method UseToken() returns (tok: Token)
      modifies this
      ensures tok == old(next.tok) && Now() == Use(old(Now()))
    {
      tok := next.tok;
      if tok.Starter? {
        parens := parens + 1;
      } else if parens > 0 && tok.Ender? {
        parens := parens - 1;
      }
      next, buf := Peek(buf), Tail(buf);
    }

    method PushStack(col: int) returns (tok: Token)
      modifies this
      ensures tok == INDENT && Now() == old(Now()).(stack := [col] + old(stack))
    {
      stack := [col] + stack;
      return INDENT;
    }

    method GetToken() returns (res: Token)
      requires Ok(Now())
      modifies this
      ensures (Now(), res) == Step(old(Now())) && Ok(Now())
    {
      StepSpec(Now());
      if parens > 0 {
        while next.tok.EOL?
          invariant SkipEol(Now()) == SkipEol(old(Now()))
          decreases Remaining(Now())
        {
          var _ := UseToken();
        }
        res := UseToken();
      } else if next.tok.EOF? {
        if |stack| <= 1 {
          res := EOF;
        } else {
          stack := stack[1..];
          res := DEDENT;
        }
      } else if next.tok.EOL? {
        newline := true;
        while next.tok.EOL?
          invariant newline && SkipEol(Now()) == SkipEol(old(Now()).(newline := true))
          decreases Remaining(Now())
        {
          newline := true;
          var _ := UseToken();
        }
        res := EOL;
      } else if newline {
        var prevCol, newColumn := stack[0], next.col;
        if newColumn > prevCol {
          newline := false;
          res := PushStack(newColumn);
        } else if newColumn == prevCol {
          newline := false;
          res := UseToken();
        } else {
          stack := stack[1..];
          newline := newColumn != stack[0];
          res := DEDENT;
        }
      } else {
        res := UseToken();
      }
    }
  }
}
