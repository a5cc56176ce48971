/** What the evaluator refuses: expressions with a parenthesis, an operand or a colon too few or too many, and digits
    that are too large for their base. */
module ArithErrors {
  import opened Numbers
  import opened ArithTokens
  import opened ArithEval
  import opened ArithText
  import opened ArithSyntax
  import opened ArithResults
  import opened ArithLaws
  import opened Strings
  import opened Wrappers

  /** The state in which a text is evaluated. */
  function Initial(text: string, depth: nat, store: Store): State {
    State(text, 0, End, End, None, 0, 0, depth + 1, store)
  }

  /** How the text of a, followed by tok or by nothing, is read. */
  lemma ReadWhole(a: Expr, text: string, tok: Tok, q: nat, depth: nat, store: Store) returns (st': State)
    requires WellFormed(a) && depth < MAX_EXPR_RECURSION_LEVEL && tok in {RPar, End}
    requires Holds(text, 0, Print(a, 0)) && NextIs(text, |Print(a, 0)|, tok, q)
    ensures var st, m := Initial(text, depth, store), SubExpr(Print(a, 0), depth, store);
            && Starts(st, a)
            && Run(0, st) == (if m.Found? then Ok(m.value, st') else Fail(m.error, m.store))
            && (m.Found? ==> Valid(st') && st'.curtok == tok && st'.store == m.store)
  {
    hide Meaning, Print, Holds, Simulates, Run, Starts, Placed, SubExpr, Rest, NextIs, Formed, AllRead, Follows;
    var st := Initial(text, depth, store);
    ReadIsPlaced(a, 0, tok);
    ClosersFollow(a, tok);
    EvaluatesTree(a, depth, store);
    st' := Simulate(a, 0, st, tok, q);
    WholeOperand(0, st, MeaningAt(a, st), tok, q, st');
  }

  /** A closing parenthesis too many is a syntax error, after all of a has been evaluated. */
  lemma ClosingLaw(a: Expr, depth: nat, store: Store)
    requires WellFormed(a) && depth < MAX_EXPR_RECURSION_LEVEL
    ensures var m := SubExpr(Print(a, 0), depth, store);
            SubExpr(Print(a, 0) + " )", depth, store) == if m.Broken? then m else Broken(SyntaxError, m.store)
  {
    hide Print, Holds, Run, Starts, SubExpr, NextIs, WellFormed, SkipBlank;
    var text := Print(a, 0) + " )";
    ClosingText(Print(a, 0));
    var st' := ReadWhole(a, text, RPar, |text|, depth, store);
    TextIsNotBlank(a, Initial(text, depth, store));
    SubExprIsRun(text, depth, store);
  }

  lemma ClosingText(a: string)
    ensures var text := a + " )"; Holds(text, 0, a) && NextIs(text, |a|, RPar, |text|)
  {
    assert (a + " )")[|a|..] == " )" == Spaced(OpText(RPar));
  }

  /** A parenthesis that is not closed is missed, after all of a has been evaluated. */
  lemma OpeningLaw(a: Expr, depth: nat, store: Store)
    requires WellFormed(a) && depth < MAX_EXPR_RECURSION_LEVEL
    ensures var m := SubExpr(Print(a, 0), depth, store);
            SubExpr(" (" + Print(a, 0), depth, store) == if m.Broken? then m else Broken(MissingParen, m.store)
  {
    hide Print, Holds, Run, Starts, SubExpr, NextIs, WellFormed, SkipBlank, Readable, Simulates, Placed, Follows,
        Meaning, ReadTok, Level, Rest;
    var text := " (" + Print(a, 0);
    var st := Initial(text, depth, store);
    PrintNotEmpty(a, 0);
    OpeningText(Print(a, 0));
    ParenIsReadable(End);
    ReadNext(st, LPar, 2);
    var s := Advanced(st, LPar, 2);
    OperandPoised(a, s, End, |text|);
    ReadIsPlaced(a, 0, End);
    ClosersFollow(a, End);
    EvaluatesTree(a, depth, store);
    var st1 := Simulate(a, 0, s, End, |text|);
    WholeOperand(0, s, MeaningAt(a, s), End, |text|, st1);
    PrimaryCases(s);
    var m := MeaningAt(a, s);
    var failed := if m.Broken? then m else Broken(MissingParen, m.store);
    SimulatesFail(15, st, failed, End, |text|, st);
    FailsWhole(15, st, failed, |text|);
    assert SkipBlank(text, 0) < |text| by {
      NotBlankAt(text, '(');
    }
    SubExprIsRun(text, depth, store);
  }

  lemma NotBlankAt(text: string, c: char)
    requires |text| > 1 && text[0] == ' ' && text[1] == c && !IsBlank(c)
    ensures SkipBlank(text, 0) < |text|
  {
    assert SkipBlank(text, 1) == 1;
  }

  lemma OpeningText(a: string)
    requires a != "" && a[0] == ' '
    ensures var text := " (" + a;
            NextIs(text, 0, LPar, 2) && Holds(text, 2, a) && 2 + |a| == |text| && text[0] == ' ' && text[1] == '('
  {
    var text := " (" + a;
    assert text[0..2] == " (" == Spaced(OpText(LPar));
    assert text[2..2 + |a|] == a;
  }

  lemma OperandPoised(a: Expr, s: State, tok: Tok, q: nat)
    requires WellFormed(a) && Valid(s) && Holds(s.text, s.tp, Print(a, 0))
    requires s.curtok in {LPar, Ques} && s.lasttok == End
    requires tok == End && q == |s.text| && s.tp + |Print(a, 0)| == q
    ensures Poised(a, Print(a, 0), s, tok, q)
  {
    hide Formed, AllRead, Holds, Print;
  }

  /** What fails as an operand at the start of the text fails as a whole. */
  lemma FailsWhole(k: nat, st: State, m: Looked, q: nat)
    requires k <= 15 && m.Broken? && Simulates(k, st, m, End, q, st)
    requires ReadTok(st).Ok? ==> !IsUnary(ReadTok(st).st.curtok)
    ensures Run(0, st) == Fail(m.error, m.store)
  {
    hide Simulates, Run, ReadTok;
    Descend(k, 0, st, m, End, q, st);
    WholeOperand(0, st, m, End, q, st);
  }

  // ---------- operands ----------

  /** Where an operand should begin, nothing does. */
  lemma {:induction false} NoOperand(k: nat, st: State)
    requires Valid(st) && k <= 15 && st.curtok in {End, RPar, Col}
    ensures Level(k, st) == Fail(OperandExpected, st.store)
    decreases 15 - k
  {
    hide ReadTok, Tail, Operand;
    if k < 15 {
      NoOperand(k + 1, st);
      LevelCases(k, st);
    }
  }

  /** Parentheses with nothing in them lack an operand. */
  lemma EmptyParensLaw(depth: nat, store: Store)
    requires depth < MAX_EXPR_RECURSION_LEVEL
    ensures SubExpr(" ( )", depth, store) == Broken(OperandExpected, store)
  {
    var text := " ( )";
    var st := Initial(text, depth, store);
    EmptyParensText();
    ClosersReadable();
    hide SubExpr, ReadTok, Level, NextIs, Readable, SkipBlank, Run, Simulates;
    ReadNext(st, LPar, 2);
    var s := Advanced(st, LPar, 2);
    ReadNext(s, RPar, 4);
    NoOperand(0, Advanced(s, RPar, 4));
    RunFails(0, s, OperandExpected, store);
    PrimaryCases(s);
    SimulatesFail(15, st, Broken(OperandExpected, store), End, 4, st);
    FailsWhole(15, st, Broken(OperandExpected, store), 4);
    SubExprIsRun(text, depth, store);
  }

  lemma EmptyParensText()
    ensures NextIs(" ( )", 0, LPar, 2) && NextIs(" ( )", 2, RPar, 4) && SkipBlank(" ( )", 0) < 4 == |" ( )"|
  {
    var text := " ( )";
    NotBlankAt(text, '(');
    assert text[0..2] == " (" == Spaced(OpText(LPar)) && text[2..4] == " )" == Spaced(OpText(RPar));
  }

  lemma ClosersReadable()
    ensures Readable(LPar, End) && Readable(RPar, LPar)
  {
  }

  lemma RunFails(k: nat, st: State, error: EvalError, store: Store)
    requires Valid(st) && k <= 15 && ReadTok(st).Ok? && Level(k, ReadTok(st).st) == Fail(error, store)
    ensures Run(k, st) == Fail(error, store)
  {
    hide ReadTok, Level;
  }

  /** An operator with nothing after it lacks an operand, after the left one has been evaluated. */
  lemma OperandLaw(op: string, a: Expr, depth: nat, store: Store)
    requires op in ARITHMETIC && WellFormed(a) && depth < MAX_EXPR_RECURSION_LEVEL
    ensures var m := SubExpr(Print(a, 0), depth, store);
            SubExpr(Wrapped(a) + " " + op, depth, store) == if m.Broken? then m else Broken(OperandExpected, m.store)
  {
    hide Print, Holds, Run, Starts, SubExpr, NextIs, WellFormed, SkipBlank, Simulates, Placed, Follows, Meaning,
        ReadTok, Level, Rest, TokenOf, Rank, ARITHMETIC, Wrapped, Tail, OpText, InfixLevel;
    var text, tok, k, e := Wrapped(a) + " " + op, TokenOf(op), Rank(op), Paren(a);
    var st := Initial(text, depth, store);
    OperatorFollows(op, a);
    OperatorText(op, Wrapped(a), tok);
    ParenText(a, k);
    WrappedPoised(a, st, tok, |text|);
    ParenMeans(a, false, depth + 1, store);
    EvaluatesTree(a, depth, store);
    var st1 := Simulate(e, k, st, tok, |text|);
    var m := MeaningAt(e, st);
    var failed := if m.Broken? then m else Broken(OperandExpected, m.store);
    if m.Found? {
      FoundFacts(k, st, m, tok, |text|, st1);
      TailFails(k, m.value, st1);
      RestIsTail(k, m.value, st1);
    }
    FailedRun(k, st, m, failed, tok, |text|, st1, |text|);
    StartsWithParen(e, st);
    FailsWhole(k, st, failed, |text|);
    TextIsNotBlank(e, st);
    SubExprIsRun(text, depth, store);
  }

  lemma OperatorFollows(op: string, a: Expr)
    requires op in ARITHMETIC && WellFormed(a)
    ensures 5 <= Rank(op) <= 12 && InfixLevel(TokenOf(op)) == Rank(op) && OpText(TokenOf(op)) == op
            && TokenOf(op) != End
    ensures Follows(Paren(a), Rank(op), TokenOf(op))
  {
    DivisionTokens(op);
    TokenFacts(op);
    BinaryRank(op);
    ParenWellFormed(a);
    ReadIsPlaced(Paren(a), Rank(op), TokenOf(op));
    hide Placed, WellFormed, OpText, Rank, TokenOf, ARITHMETIC;
  }

  lemma BinaryRank(op: string)
    requires op in ARITHMETIC
    ensures 5 <= Rank(op) <= 12 && TokenOf(op) != Eq && !TokenOf(op).OpAssign? && TokenOf(op) != End
  {
  }

  lemma OperatorText(op: string, w: string, tok: Tok)
    requires OpText(tok) == op && tok != End
    ensures var text := w + " " + op; Holds(text, 0, w) && NextIs(text, |w|, tok, |text|)
  {
    hide OpText;
    assert (w + " " + op)[|w|..] == " " + op == Spaced(op);
  }

  lemma WrappedPoised(a: Expr, st: State, tok: Tok, q: nat)
    requires WellFormed(a) && Valid(st) && st.tp == 0 && st.curtok == End && st.lasttok == End
    requires Holds(st.text, 0, Wrapped(a)) && NextIs(st.text, |Wrapped(a)|, tok, q)
    ensures Poised(Paren(a), Wrapped(a), st, tok, q)
  {
    ParenWellFormed(a);
    hide Formed, AllRead, Holds, NextIs, Wrapped;
  }

  lemma TailFails(k: nat, v: intmax, st: State)
    requires Valid(st) && 5 <= k <= 12 && InfixLevel(st.curtok) == k && st.tp == |st.text|
    ensures Tail(k, v, st) == Fail(OperandExpected, st.store)
  {
    hide ReadTok, Level, Tail, Run, InfixLevel;
    ReadEnd(st);
    NoOperand(k + 1, Advanced(st, End, st.tp));
    RunFails(k + 1, st, OperandExpected, st.store);
    BinaryCases(k, v, st);
  }

  lemma FailedRun(k: nat, st: State, m: Looked, failed: Looked, tok: Tok, q: nat, st1: State, end: nat)
    requires Simulates(k, st, m, tok, q, st1) && failed.Broken?
    requires if m.Broken? then failed == m else Valid(st1) && Rest(k, m.value, st1) == Fail(failed.error, failed.store)
    ensures Simulates(k, st, failed, End, end, st)
  {
    hide Run, Rest;
  }

  lemma StartsWithParen(e: Expr, st: State)
    requires e.Paren? && Starts(st, e)
    ensures ReadTok(st).Ok? ==> !IsUnary(ReadTok(st).st.curtok)
  {
    hide ReadTok;
  }

  // ---------- conditionals ----------

  /** (c) ? t without a colon: it is missed after t has been evaluated, where c holds. */
  lemma ColonLaw(c: Expr, t: Expr, depth: nat, store: Store)
    requires WellFormed(c) && WellFormed(t) && depth < MAX_EXPR_RECURSION_LEVEL
    requires var m := SubExpr(Print(c, 0), depth, store); m.Found? && m.value != 0
    ensures var m := SubExpr(Print(c, 0), depth, store);
            var n := SubExpr(Print(t, 0), depth, m.store);
            SubExpr(Wrapped(c) + " ?" + Print(t, 0), depth, store)
            == if n.Broken? then n else Broken(ColonExpected, n.store)
  {
    hide Print, Holds, Run, Starts, SubExpr, NextIs, WellFormed, SkipBlank, Simulates, Placed, Follows, Meaning,
        ReadTok, Level, Rest, Wrapped, Tail, After, Ready;
    var text, e := Wrapped(c) + " ?" + Print(t, 0), Paren(c);
    var st, q := Initial(text, depth, store), |Wrapped(c)| + 2;
    PrintNotEmpty(t, 0);
    QuestionText(Wrapped(c), Print(t, 0));
    var st1 := ReadCondition(c, st, q);
    var m := MeaningAt(e, st);
    var n := SubExpr(Print(t, 0), depth, m.store);
    var failed := if n.Broken? then n else Broken(ColonExpected, n.store);
    TailWithoutColon(m.value, st1, t, depth);
    ConditionFails(e, text, depth, store, q, m, failed, st1);
  }

  lemma ConditionFails(e: Expr, text: string, depth: nat, store: Store, q: nat, m: Looked, failed: Looked, st1: State)
    requires e.Paren? && depth < MAX_EXPR_RECURSION_LEVEL && failed.Broken?
    requires var st := Initial(text, depth, store); Simulates(2, st, m, Ques, q, st1) && Starts(st, e)
    requires if m.Broken? then failed == m
             else Valid(st1) && Tail(2, m.value, st1) == Fail(failed.error, failed.store)
    ensures SubExpr(text, depth, store) == failed
  {
    hide Run, Starts, SubExpr, SkipBlank, Simulates, ReadTok, Level, Rest, Tail;
    var st := Initial(text, depth, store);
    if m.Found? {
      RestIsTail(2, m.value, st1);
    }
    FailedRun(2, st, m, failed, Ques, q, st1, |text|);
    StartsWithParen(e, st);
    FailsWhole(2, st, failed, |text|);
    TextIsNotBlank(e, st);
    SubExprIsRun(text, depth, store);
  }

  lemma TailWithoutColon(v: intmax, st: State, t: Expr, depth: nat)
    requires v != 0 && WellFormed(t) && depth < MAX_EXPR_RECURSION_LEVEL && st.depth == depth + 1 && st.noeval == 0
    requires Valid(st) && Ready(st) && st.curtok == Ques && Holds(st.text, st.tp, Print(t, 0))
             && st.tp + |Print(t, 0)| == |st.text|
    ensures var n := SubExpr(Print(t, 0), depth, st.store);
            Tail(2, v, st) == if n.Broken? then Fail(n.error, n.store) else Fail(ColonExpected, n.store)
  {
    hide Print, Holds, Run, Starts, SubExpr, WellFormed, Simulates, Placed, Follows, Meaning, ReadTok, Level, Rest,
        Tail, Ready, NextIs;
    EvaluatesTree(t, depth, st.store);
    BranchPoised(t, st);
    ReadIsPlaced(t, 0, End);
    ClosersFollow(t, End);
    var st2 := Simulate(t, 0, st, End, |st.text|);
    WholeOperand(0, st, MeaningAt(t, st), End, |st.text|, st2);
    NoColon(v, st, t, MeaningAt(t, st), st2);
  }

  lemma QuestionText(w: string, t: string)
    requires t == "" || t[0] == ' '
    ensures var text := w + " ?" + t;
            Holds(text, 0, w) && NextIs(text, |w|, Ques, |w| + 2) && Holds(text, |w| + 2, t) && |text| == |w| + 2 + |t|
  {
    var text := w + " ?" + t;
    assert text[|w|..|w| + 2] == " ?" == Spaced(OpText(Ques));
    assert text[|w| + 2..|w| + 2 + |t|] == t;
  }

  /** The condition and the question mark have been read. */
  lemma ReadCondition(c: Expr, st: State, q: nat) returns (st1: State)
    requires WellFormed(c) && 0 < st.depth <= MAX_EXPR_RECURSION_LEVEL
             && st == Initial(st.text, st.depth - 1, st.store)
    requires Holds(st.text, 0, Wrapped(c)) && NextIs(st.text, |Wrapped(c)|, Ques, q)
    ensures var m := SubExpr(Print(c, 0), st.depth - 1, st.store);
            && MeaningAt(Paren(c), st) == m && Simulates(2, st, m, Ques, q, st1) && Starts(st, Paren(c))
            && (m.Found? ==> Valid(st1) && Ready(st1) && st1.curtok == Ques && st1.tp == q && st1.text == st.text
                             && st1.store == m.store && st1.noeval == 0 && st1.depth == st.depth)
  {
    hide Print, Holds, NextIs, WellFormed, Simulates, Placed, Follows, Meaning, ReadTok, Wrapped, Run, Rest, Starts;
    ConditionFollows(c);
    ParenText(c, 2);
    WrappedPoised(c, st, Ques, q);
    ParenMeans(c, false, st.depth, st.store);
    EvaluatesTree(c, st.depth - 1, st.store);
    st1 := Simulate(Paren(c), 2, st, Ques, q);
    if MeaningAt(Paren(c), st).Found? {
      FoundFacts(2, st, MeaningAt(Paren(c), st), Ques, q, st1);
    }
  }

  lemma ConditionFollows(c: Expr)
    requires WellFormed(c)
    ensures Follows(Paren(c), 2, Ques)
  {
    ParenWellFormed(c);
    ReadIsPlaced(Paren(c), 2, Ques);
    hide Placed, WellFormed;
  }

  lemma BranchPoised(t: Expr, st: State)
    requires WellFormed(t) && Ready(st) && Holds(st.text, st.tp, Print(t, 0)) && st.tp + |Print(t, 0)| == |st.text|
    ensures Poised(t, Print(t, 0), st, End, |st.text|)
  {
    hide Formed, AllRead, Holds, Print;
  }

  lemma NoColon(v: intmax, st: State, t: Expr, n: Looked, st2: State)
    requires v != 0 && Valid(st) && st.curtok == Ques && Starts(st, t)
    requires Run(0, st) == if n.Found? then Ok(n.value, st2) else Fail(n.error, n.store)
    requires n.Found? ==> Valid(st2) && st2.curtok == End && st2.store == n.store
    ensures Tail(2, v, st) == if n.Broken? then Fail(n.error, n.store) else Fail(ColonExpected, n.store)
  {
    hide Run, ReadTok, Tail, CondElse;
    assert st.(noeval := st.noeval) == st;
    CondCases(v, st);
  }

  /** (c) ? with nothing after it */
  lemma BranchLaw(c: Expr, depth: nat, store: Store)
    requires WellFormed(c) && depth < MAX_EXPR_RECURSION_LEVEL
    ensures var m := SubExpr(Print(c, 0), depth, store);
            SubExpr(Wrapped(c) + " ?", depth, store) == if m.Broken? then m else Broken(ExpressionExpected, m.store)
  {
    hide Print, Holds, Run, Starts, SubExpr, NextIs, WellFormed, SkipBlank, Simulates, Meaning, ReadTok, Level, Rest,
        Wrapped, Tail, Ready;
    var text, e := Wrapped(c) + " ?", Paren(c);
    var st, q := Initial(text, depth, store), |Wrapped(c)| + 2;
    assert text + "" == text;
    QuestionText(Wrapped(c), "");
    var st1 := ReadCondition(c, st, q);
    var m := MeaningAt(e, st);
    var failed := if m.Broken? then m else Broken(ExpressionExpected, m.store);
    if m.Found? {
      NoBranch(m.value, st1);
    }
    ConditionFails(e, text, depth, store, q, m, failed, st1);
  }

  lemma NoBranch(v: intmax, st: State)
    requires Valid(st) && st.curtok == Ques && st.tp == |st.text|
    ensures Tail(2, v, st) == Fail(ExpressionExpected, st.store)
  {
    hide ReadTok, Level, CondElse;
    ReadEnd(st.(noeval := if v == 0 then st.noeval + 1 else st.noeval));
    assert Tail(2, v, st) == TailCond(v, st);
  }

  // ---------- digits ----------

  /** A digit that is too large for its base makes the constant invalid. */
  lemma DigitTooLargeLaw(base: nat, k: nat, depth: nat, store: Store)
    requires 2 <= base <= k < 64 && (base > 36 || k < 36 || k >= 62) && depth < MAX_EXPR_RECURSION_LEVEL
    ensures |DIGITS| == 64 && SubExpr(" " + Digits(base) + "#" + [DIGITS[k]], depth, store) == Broken(BadNumber, store)
  {
    hide SubExpr, Digits, DIGITS, StrLong;
    DigitsSpelled(k);
    var c := DIGITS[k];
    LargeDigit(base, k, c);
    NoConstantRead(base, c);
    LiteralText(base, c);
    var text := Digits(base) + "#" + [c];
    EvaluatesTree(Lit(text), depth, store);
    assert " " + Digits(base) + "#" + [c] == " " + text;
  }

  lemma LargeDigit(base: nat, k: nat, c: char)
    requires base <= k < 64 && (base > 36 || k < 36 || k >= 62)
    requires c == if k < 10 then '0' + k as char else if k < 36 then 'a' + (k - 10) as char
                  else if k < 62 then 'A' + (k - 36) as char else if k == 62 then '@' else '_'
    ensures (NameChar(c) || c == '@') && DigitIn(c, base) >= base
  {
  }

  lemma NoConstantRead(base: nat, c: char)
    requires 2 <= base <= 64 && (NameChar(c) || c == '@') && DigitIn(c, base) >= base
    ensures StrLong(Digits(base) + "#" + [c]) == NoConstant
  {
    var b := Digits(base);
    var s := b + "#" + [c];
    DigitsArePositional(b);
    DigitsRoundTrip(base);
    assert s[0..|b|] == b && s[0..0] == "" && s[0] == b[0];
    ReadDigits(s, 0, 0, |b|, 10, false);
    assert Positional(s[0..0], 10) == 0;
    assert s[|b|] == '#' && s[|b| + 1] == c;
    assert StrLongFrom(s, |b| + 1, base, true, 0) == NoConstant;
    assert StrLongFrom(s, |b|, 10, false, base) == NoConstant;
  }
}
