/** What the arithmetic evaluator guarantees: the value of printed trees, of integer constants and of
    variables that hold integers, and how far operands that are not needed can be felt. */
module ArithResults {
  import opened Numbers
  import opened ArithTokens
  import opened ArithEval
  import opened ArithText
  import opened ArithSyntax
  import opened Strings
  import opened Wrappers

  // ---------- printed trees ----------

  /** Evaluating the text of a tree gives the tree's value and its assignments, or its error. */
  lemma EvaluatesTree(e: Expr, depth: nat, store: Store)
    requires WellFormed(e) && depth < MAX_EXPR_RECURSION_LEVEL
    ensures SubExpr(Print(e, 0), depth, store) == Meaning(e, false, depth + 1, store)
  {
    hide Meaning, Print, Holds, Simulates, Run, Starts, WellFormed, Placed, SubExpr, Rest, Follows, Poised;
    var text := Print(e, 0);
    var st := State(text, 0, End, End, None, 0, 0, depth + 1, store);
    HoldsWhole(text);
    ReadIsPlaced(e, 0, End);
    ClosersFollow(e, End);
    InitialIsPoised(e, st);
    var st' := Simulate(e, 0, st, End, |text|);
    WholeOperand(0, st, MeaningAt(e, st), End, |text|, st');
    TextIsNotBlank(e, st);
    SubExprIsRun(text, depth, store);
    if MeaningAt(e, st).Found? {
      FoundFacts(0, st, MeaningAt(e, st), End, |text|, st');
    }
  }

  lemma InitialIsPoised(e: Expr, st: State)
    requires WellFormed(e) && Valid(st) && st.tp == 0 && st.curtok == End && st.lasttok == End
             && Holds(st.text, 0, st.text)
    ensures Poised(e, st.text, st, End, |st.text|)
  {
    hide Formed, AllRead, Holds;
  }

  lemma SubExprIsRun(text: string, depth: nat, store: Store)
    requires depth < MAX_EXPR_RECURSION_LEVEL && SkipBlank(text, 0) < |text|
    ensures var r := Run(0, State(text, 0, End, End, None, 0, 0, depth + 1, store));
            SubExpr(text, depth, store) ==
            if r.Fail? then Broken(r.error, r.store)
            else if r.st.curtok != End then Broken(SyntaxError, r.st.store) else Found(r.value, r.st.store)
  {
    hide ReadTok, Level;
  }

  lemma TextIsNotBlank(e: Expr, st: State)
    requires Starts(st, e) && st.tp == 0
    ensures SkipBlank(st.text, 0) < |st.text|
  {
  }

  // ---------- compound assignments ----------

  /** Evaluating the text of e, an assignment operator and rhs, where e is not a variable and is as op demands. */
  lemma EvaluatesAssignment(e: Expr, op: Tok, rhs: Expr, depth: nat, store: Store)
    requires Formed(e) && Placed(e, 2, op) && WellFormed(rhs) && !e.Var? && !e.Unread? && Assignable(op)
             && depth < MAX_EXPR_RECURSION_LEVEL
    ensures SubExpr(Print(e, 2) + Spaced(OpText(op)) + Print(rhs, 1), depth, store)
         == NonVariableMeaning(e, op, rhs, false, depth + 1, store)
  {
    hide Meaning, Print, Holds, Simulates, Run, Starts, Formed, WellFormed, Placed, SubExpr, Rest, Follows,
        NonVariableMeaning, NextIs, OpText;
    hide Assignable;
    var text := Print(e, 2) + Spaced(OpText(op)) + Print(rhs, 1);
    var st := State(text, 0, End, End, None, 0, 0, depth + 1, store);
    HoldsWhole(text);
    AssignIsOperator(op);
    PrintNotEmpty(rhs, 1);
    SplitInfix(text, 0, Print(e, 2), op, Print(rhs, 1));
    var q1 := |Print(e, 2)| + 1 + |OpText(op)|;
    EndFollows(rhs, text);
    var m := NonVariableMeaning(e, op, rhs, false, depth + 1, store);
    var st' := SimulateNonVariable(e, op, rhs, st, q1, End, |text|);
    DescendOne(1, st, m, End, |text|, st');
    WholeOperand(0, st, m, End, |text|, st');
    TextIsNotBlank(e, st);
    SubExprIsRun(text, depth, store);
    if m.Found? {
      FoundFacts(0, st, m, End, |text|, st');
    }
  }

  /** Evaluating `e op= rhs`, where e is not a variable. */
  lemma EvaluatesNonVariable(e: Expr, op: Tok, rhs: Expr, depth: nat, store: Store)
    requires WellFormed(e) && WellFormed(rhs) && !e.Var? && op.OpAssign? && Assignable(op)
             && depth < MAX_EXPR_RECURSION_LEVEL
    ensures SubExpr(Print(e, 2) + Spaced(OpText(op)) + Print(rhs, 1), depth, store)
         == NonVariableMeaning(e, op, rhs, false, depth + 1, store)
  {
    hide Meaning, Print, Formed, Placed, SubExpr, NonVariableMeaning, OpText, Assignable;
    PartsWellFormed(e);
    ReadIsPlaced(e, 2, op);
    EvaluatesAssignment(e, op, rhs, depth, store);
  }

  /** `e = rhs` is an error for every e that is not a variable: the one that e itself gives when a variable right
      before the `=` counts as 0, or else that e is no variable. */
  lemma EvaluatesPlainNonVariable(e: Expr, rhs: Expr, depth: nat, store: Store)
    requires WellFormed(e) && WellFormed(rhs) && !e.Var? && depth < MAX_EXPR_RECURSION_LEVEL
    ensures var m := Meaning(Cut(e, 2), false, depth + 1, store);
            SubExpr(Print(e, 2) + Spaced("=") + Print(rhs, 1), depth, store)
            == if m.Broken? then m else Broken(NotAVariable, m.store)
  {
    hide Meaning, Print, Formed, Placed, SubExpr, NonVariableMeaning, WellFormed, EarlyRemainder;
    CutText(e, 2);
    CutIsPlaced(e, 2);
    CutIsNoVariable(e);
    EqualsText();
    hide OpText, Cut;
    EvaluatesAssignment(Cut(e, 2), Eq, rhs, depth, store);
    PlainIsRefused(Cut(e, 2), rhs, depth + 1, store);
  }

  lemma EqualsText()
    ensures OpText(Eq) == "=" && Assignable(Eq)
  {
  }

  lemma CutIsNoVariable(e: Expr)
    requires WellFormed(e) && !e.Var?
    ensures !Cut(e, 2).Var? && !Cut(e, 2).Unread?
  {
    PartsWellFormed(e);
  }

  /** The early remainder has a variable at its end, which is not read before `=`. */
  lemma PlainIsRefused(e: Expr, rhs: Expr, depth: nat, store: Store)
    requires Placed(e, 2, Eq) && depth <= MAX_EXPR_RECURSION_LEVEL
    ensures var m := Meaning(e, false, depth, store);
            NonVariableMeaning(e, Eq, rhs, false, depth, store)
            == if m.Broken? then m else Broken(NotAVariable, m.store)
  {
    hide Meaning, AssignMeaning, Value;
    NoNameAtEnd(e);
  }

  lemma NoNameAtEnd(e: Expr)
    ensures e.Binary? && Placed(e, 2, Eq) ==> !e.r.Var?
  {
    if e.Binary? {
      assert Placed(e, 2, Eq) == PlacedBare(e, Eq);
      assert PlacedBare(e, Eq) ==> Placed(e.r, LevelOf(e) + 1, Eq);
      assert e.r.Var? ==> Placed(e.r, LevelOf(e) + 1, Eq) == PlacedBare(e.r, Eq) == false;
    }
  }

  lemma QuotientWellFormed(op: Tok, l: Expr, name: string)
    requires (op == Div || op == Mod) && WellFormed(l) && IsNameText(name)
    ensures WellFormed(Binary(op, l, Var(name)))
  {
    hide IsNameText;
    assert Formed(Var(name)) && AllRead(Var(name));
    assert Formed(Binary(op, l, Var(name)));
    assert AllRead(Binary(op, l, Var(name)));
  }

  /** `l % name = rhs` and `l / name = rhs` are divisions by zero, whatever name holds. */
  lemma NameCountsAsZero(op: Tok, l: Expr, name: string, rhs: Expr, depth: nat, store: Store)
    requires (op == Div || op == Mod) && WellFormed(l) && IsNameText(name) && WellFormed(rhs)
    requires depth < MAX_EXPR_RECURSION_LEVEL && Meaning(l, false, depth + 1, store).Found?
    ensures var e := Binary(op, l, Var(name));
            SubExpr(Print(e, 2) + Spaced("=") + Print(rhs, 1), depth, store)
            == Broken(DivisionByZero, Meaning(l, false, depth + 1, store).store)
  {
    hide Print, SubExpr, IsNameText, Apply;
    QuotientWellFormed(op, l, name);
    EvaluatesPlainNonVariable(Binary(op, l, Var(name)), rhs, depth, store);
    assert Cut(Binary(op, l, Var(name)), 2) == Binary(op, l, Unread(name));
    hide Meaning;
    MeaningOfInfix(Binary(op, l, Unread(name)), false, depth + 1, store);
    UnreadMeans(name, depth + 1, Meaning(l, false, depth + 1, store).store);
  }

  lemma UnreadMeans(name: string, depth: nat, store: Store)
    requires depth <= MAX_EXPR_RECURSION_LEVEL
    ensures Meaning(Unread(name), false, depth, store) == Found(0, store)
  {
  }

  lemma EndFollows(e: Expr, text: string)
    requires WellFormed(e)
    ensures Formed(e)
    ensures Follows(e, 1, End) && NextIs(text, |text|, End, |text|) && InfixLevel(End) < 1
  {
    hide Placed, Formed;
    ReadIsPlaced(e, 1, End);
  }

  /** A compound assignment to a tree that is not a variable is refused if and only if the tree is not `l % name`
      with the values INTMAX_MIN and -1. */
  lemma NotAVariableExactly(e: Expr, op: Tok, rhs: Expr, depth: nat, store: Store)
    requires WellFormed(e) && WellFormed(rhs) && !e.Var? && op.OpAssign? && Assignable(op)
             && depth < MAX_EXPR_RECURSION_LEVEL
    requires var m := Meaning(e, false, depth + 1, store); m.Found? && Meaning(rhs, false, depth + 1, m.store).Found?
    ensures var r := SubExpr(Print(e, 2) + Spaced(OpText(op)) + Print(rhs, 1), depth, store);
            r.Broken? && r.error == NotAVariable <==> !EarlyRemainder(e, false, depth + 1, store)
  {
    hide Meaning, Print, SubExpr, WellFormed, EarlyRemainder, OpText, Assignable, Spaced, Assigned, Stored;
    EvaluatesNonVariable(e, op, rhs, depth, store);
  }

  /** `a % b += 7` assigns 7 to b, when a holds INTMAX_MIN and b holds -1. */
  lemma RemainderIsAssigned(depth: nat, store: Store)
    requires depth + 1 < MAX_EXPR_RECURSION_LEVEL && "a" in store && store["a"] == Itos(INTMAX_MIN)
    requires "b" in store && store["b"] == Itos(-1)
    ensures var e := Binary(Mod, Var("a"), Var("b"));
            && EarlyRemainder(e, false, depth + 1, store)
            && SubExpr(Print(e, 2) + Spaced("+=") + Print(Lit("7"), 1), depth, store) == Found(7, store["b" := Itos(7)])
  {
    hide *;
    SevenText();
    RemainderMeans(depth + 1, store);
    RemainderAddsSeven(depth + 1, store);
    EvaluatesNonVariable(Binary(Mod, Var("a"), Var("b")), OpAssign(Plus), Lit("7"), depth, store);
  }

  lemma RemainderAddsSeven(depth: nat, store: Store)
    requires depth < MAX_EXPR_RECURSION_LEVEL && "a" in store && store["a"] == Itos(INTMAX_MIN)
    requires "b" in store && store["b"] == Itos(-1)
    ensures NonVariableMeaning(Binary(Mod, Var("a"), Var("b")), OpAssign(Plus), Lit("7"), false, depth, store)
         == Found(7, store["b" := Itos(7)])
  {
    hide Itos, Meaning, EarlyRemainder, AssignMeaning;
    RemainderMeans(depth, store);
    SevenMeans(depth, store);
    SevenStored(store);
  }

  lemma SevenText()
    ensures OpText(OpAssign(Plus)) == "+=" && Assignable(OpAssign(Plus))
    ensures WellFormed(Binary(Mod, Var("a"), Var("b"))) && WellFormed(Lit("7"))
  {
  }

  lemma SevenStored(store: Store)
    ensures AssignMeaning(OpAssign(Plus), "b", false, 0, Found(7, store)) == Found(7, store["b" := Itos(7)])
  {
    hide Itos;
  }

  lemma NoRemainder()
    ensures Apply(Mod, INTMAX_MIN, -1) == 0
  {
  }

  lemma RemainderMeans(depth: nat, store: Store)
    requires depth < MAX_EXPR_RECURSION_LEVEL && "a" in store && store["a"] == Itos(INTMAX_MIN)
    requires "b" in store && store["b"] == Itos(-1)
    ensures var e := Binary(Mod, Var("a"), Var("b"));
            EarlyRemainder(e, false, depth, store) && Meaning(e, false, depth, store) == Found(0, store)
  {
    var e := Binary(Mod, Var("a"), Var("b"));
    NamedInteger("a", INTMAX_MIN, depth, store);
    NamedInteger("b", -1, depth, store);
    NoRemainder();
    hide Itos, Meaning, Apply, Value;
    MeaningOfInfix(e, false, depth, store);
  }

  lemma NamedInteger(name: string, v: intmax, depth: nat, store: Store)
    requires depth < MAX_EXPR_RECURSION_LEVEL && name in store && store[name] == Itos(v)
    ensures Meaning(Var(name), false, depth, store) == Value(name, false, depth, store) == Found(v, store)
  {
    hide SubExpr;
    IntegerEvaluates(v, depth, store);
  }

  lemma SevenMeans(depth: nat, store: Store)
    requires depth <= MAX_EXPR_RECURSION_LEVEL
    ensures Meaning(Lit("7"), false, depth, store) == Found(7, store)
  {
    hide StrLong;
    Seven();
  }

  lemma Seven()
    ensures StrLong("7") == Constant(7)
  {
    assert Digits(7) == "7";
    hide Digits, StrLong;
    StrLongOfDigits(7);
  }

  // ---------- integer constants ----------

  predicate DigitsOf(s: string, base: nat) {
    forall k :: 0 <= k < |s| ==> (NameChar(s[k]) || s[k] == '@') && DigitIn(s[k], base) < base
  }

  /** The value of a string of digits in a base, most significant first. */
  function Positional(s: string, base: nat): nat
    requires DigitsOf(s, base)
  {
    if s == "" then 0 else Positional(s[..|s| - 1], base) * base + DigitIn(s[|s| - 1], base)
  }

  /** From position i to position end, strlong reads digits of the base as a positional number modulo
      2 to the 64th. */
  lemma {:induction false} ReadDigits(s: string, from: nat, i: nat, end: nat, base: nat, found: bool)
    requires from <= i <= end <= |s| && DigitsOf(s[from..end], base)
    ensures DigitsOf(s[from..i], base)
    ensures StrLongFrom(s, i, base, found, Wrap(Positional(s[from..i], base)))
         == StrLongFrom(s, end, base, found, Wrap(Positional(s[from..end], base)))
    decreases end - i
  {
    hide Wrap;
    assert forall k :: from <= k < end ==> s[from..end][k - from] == s[k];
    if i < end {
      assert s[from..i + 1][..i - from] == s[from..i];
      assert s[from..end][i - from] == s[i] && s[i] != '#';
      WrapStep(Positional(s[from..i], base), base, DigitIn(s[i], base));
      ReadDigits(s, from, i + 1, end, base, found);
    }
  }

  /** All of s from position `from` on is digits of the base. */
  lemma ReadAllDigits(s: string, from: nat, base: nat, found: bool)
    requires from <= |s| && DigitsOf(s[from..], base)
    ensures StrLongFrom(s, from, base, found, 0) == Constant(Wrap(Positional(s[from..], base)))
  {
    assert s[from..|s|] == s[from..] && s[from..from] == "";
    ReadDigits(s, from, from, |s|, base, found);
  }

  /** Plain decimal, octal after 0 and hexadecimal after 0x. */
  lemma ConstantForms(s: string)
    ensures s != "" && s[0] != '0' && DigitsOf(s, 10) ==> StrLong(s) == Constant(Wrap(Positional(s, 10)))
    ensures DigitsOf(s, 8) && At(s, 0) != 'x' && At(s, 0) != 'X'
            ==> StrLong("0" + s) == Constant(Wrap(Positional(s, 8)))
    ensures DigitsOf(s, 16) ==> StrLong("0x" + s) == Constant(Wrap(Positional(s, 16)))
  {
    if s != "" && s[0] != '0' && DigitsOf(s, 10) {
      assert s[0..] == s;
      ReadAllDigits(s, 0, 10, false);
    }
    if DigitsOf(s, 8) && At(s, 0) != 'x' && At(s, 0) != 'X' {
      var t := "0" + s;
      assert t[1..] == s;
      ReadAllDigits(t, 1, 8, true);
    }
    if DigitsOf(s, 16) {
      var t := "0x" + s;
      assert t[2..] == s;
      ReadAllDigits(t, 2, 16, true);
    }
  }

  /** `base#digits`, for a decimal base from 2 to 64 that does not begin with 0. */
  lemma BasedConstant(b: string, digits: string)
    requires AllDigits(b) && b != "" && b[0] != '0' && DigitsOf(b, 10) && 2 <= Positional(b, 10) <= 64
    requires digits != "" && DigitsOf(digits, Positional(b, 10))
    ensures StrLong(b + "#" + digits) == Constant(Wrap(Positional(digits, Positional(b, 10))))
  {
    var base := Positional(b, 10);
    var s := b + "#" + digits;
    assert s[0..|b|] == b && s[0..0] == "";
    ReadDigits(s, 0, 0, |b|, 10, false);
    assert s[|b|] == '#' && s[|b| + 1] == digits[0] && s[|b| + 1..] == digits;
    ReadAllDigits(s, |b| + 1, base, true);
  }

  // ---------- variables that hold integers ----------

  lemma {:induction false} DigitsArePositional(s: string)
    requires AllDigits(s)
    ensures DigitsOf(s, 10) && Positional(s, 10) == DigitsValue(s)
  {
    if s != "" {
      DigitsArePositional(s[..|s| - 1]);
    }
  }

  lemma StrLongOfDigits(n: nat)
    ensures StrLong(Digits(n)) == Constant(Wrap(n))
  {
    DigitsArePositional(Digits(n));
    DigitsRoundTrip(n);
    if n > 0 {
      ConstantForms(Digits(n));
    }
  }

  lemma NumEndOfDigits(text: string, i: nat)
    requires i < |text| && AllDigits(text[i..])
    ensures NumEnd(text, i) == |text| && SkipBlank(text, i) == i && IsDigit(text[i]) && !NameStart(text[i])
  {
    forall k | i <= k < |text| ensures IsDigit(text[k]) {
      assert text[k] == text[i..][k - i];
    }
    NumEndAt(text, i, |text|);
  }

  /** A number that runs to the end of the text. */
  lemma NumberStep(st: State, n: nat) returns (st': State)
    requires Ready(st) && st.tp < |st.text| && st.text[st.tp..] == Digits(n)
    ensures Simulates(15, st, Found(Wrap(n), st.store), End, |st.text|, st')
    ensures ReadTok(st).Ok? && ReadTok(st).st.curtok == Num
  {
    var s := Advanced(st, Num, |st.text|).(tokval := Wrap(n));
    ReadNumberToEnd(st, n);
    hide Level, ReadAfter, ReadTok, Wrap, Digits;
    PrimaryCases(s);
    st' := PrimaryRead(st, s, Wrap(n), s, End, |st.text|);
  }

  lemma ReadNumberToEnd(st: State, n: nat)
    requires Valid(st) && st.tp < |st.text| && st.text[st.tp..] == Digits(n)
    ensures ReadTok(st) == Ok(0, Advanced(st, Num, |st.text|).(tokval := Wrap(n)))
  {
    hide Digits, Wrap, StrLong, NumEnd, NameEnd, SkipBlank, LexOperator, StrEval;
    NumEndOfDigits(st.text, st.tp);
    StrLongOfDigits(n);
    assert st.text[st.tp..|st.text|] == st.text[st.tp..];
  }

  lemma WrapNegation(n: int)
    requires n >= 0
    ensures INTMAX_MIN <= -n ==> Wrap(-(Wrap(n) as int)) == -n
    ensures n <= INTMAX_MAX ==> Wrap(n) == n
  {
  }

  lemma MinusAt(text: string, curtok: Tok, lasttok: Tok)
    requires |text| > 1 && text[0] == '-' && IsDigit(text[1])
    ensures SkipBlank(text, 0) == 0 && !NameStart(text[0]) && !IsDigit(text[0])
    ensures LexOperator(text, 0, curtok, lasttok) == Lexed(Minus, 1)
  {
  }

  lemma PositiveStep(st: State, n: nat) returns (st': State)
    requires Ready(st) && st.tp == 0 && st.text == Digits(n) && n <= INTMAX_MAX
    ensures Simulates(0, st, Found(n, st.store), End, |st.text|, st')
  {
    hide ReadTok, Simulates, Digits, Wrap;
    assert st.text[0..] == st.text;
    st' := NumberStep(st, n);
    WrapNegation(n);
    Descend(15, 0, st, Found(n, st.store), End, |st.text|, st');
  }

  lemma NegativeStep(st: State, n: nat) returns (st': State)
    requires Ready(st) && st.tp == 0 && st.text == "-" + Digits(n) && INTMAX_MIN <= -(n as int)
    ensures Simulates(0, st, Found(-(n as int), st.store), End, |st.text|, st')
  {
    hide ReadTok, Simulates, Digits, Wrap, LexOperator, SkipBlank, NameStart, Run, IsDigit, Level;
    assert st.text[1..] == Digits(n);
    MinusAt(st.text, st.curtok, st.lasttok);
    ReadOperator(st, 0, Minus, 1);
    var s := Advanced(st, Minus, 1);
    var st1 := NumberStep(s, n);
    var m, r := Found(Wrap(n), st.store), Found(-(n as int), st.store);
    Descend(15, 14, s, m, End, |st.text|, st1);
    st' := UnaryStep(st, s, m, End, |st.text|, st1);
    WrapNegation(n);
    Descend(14, 0, st, r, End, |st.text|, st');
  }

  lemma ItosParts(v: intmax)
    ensures v >= 0 ==> Itos(v) == Digits(v)
    ensures v < 0 ==> Itos(v) == "-" + Digits(-(v as int))
    ensures SkipBlank(Itos(v), 0) < |Itos(v)|
  {
    hide Digits;
    assert v >= 0 ==> IsDigit(Itos(v)[0]);
  }

  /** Evaluating the decimal text of any 64-bit integer gives the integer back, even the least one, whose
      digits alone are out of range. */
  lemma IntegerEvaluates(v: intmax, depth: nat, store: Store)
    requires depth < MAX_EXPR_RECURSION_LEVEL
    ensures SubExpr(Itos(v), depth, store) == Found(v, store)
  {
    var text := Itos(v);
    var st := State(text, 0, End, End, None, 0, 0, depth + 1, store);
    hide ReadTok, Level, Run, Rest, SubExpr, Simulates, Digits, SkipBlank, Itos, Left;
    ItosParts(v);
    var st';
    if v >= 0 {
      st' := PositiveStep(st, v);
    } else {
      st' := NegativeStep(st, -(v as int));
    }
    WholeOperand(0, st, Found(v, store), End, |text|, st');
    SubExprIsRun(text, depth, store);
  }

  /** A variable reads back as the value that was assigned to it. */
  lemma AssignedReadsBack(name: string, v: intmax, depth: nat, store: Store)
    requires depth < MAX_EXPR_RECURSION_LEVEL && name != ""
    ensures var store' := Bind(store, Some(name), v); Value(name, false, depth, store') == Found(v, store')
  {
    IntegerEvaluates(v, depth, Bind(store, Some(name), v));
  }

  // ---------- operands that are not needed ----------

  /** The value of e when an operand that is not needed is not looked at, as in C. */
  function Ideal(e: Expr, depth: nat, store: Store): Looked
    requires depth <= MAX_EXPR_RECURSION_LEVEL
    decreases e
  {
    if IsInfix(e) then
      var m := Ideal(e.l, depth, store);
      if m.Broken? then m
      else if Settled(e, m.value) then Found(Truth(e.tok == LOr), m.store)
      else InfixMeaning(e, false, m.value, Ideal(e.r, depth, m.store))
    else match e
    case Paren(e) => Ideal(e, depth, store)
    case Unary(tok, e) =>
      var m := Ideal(e, depth, store);
      if m.Broken? then m else Found(ArithEval.Unary(tok, m.value), m.store)
    case Ternary(c, t, f) =>
      var m := Ideal(c, depth, store);
      if m.Broken? then m else Ideal(if m.value != 0 then t else f, depth, m.store)
    case Assign(tok, name, e) =>
      var m := TargetMeaning(tok, name, false, depth, store);
      if m.Broken? then m else AssignMeaning(tok, name, false, m.value, Ideal(e, depth, m.store))
    case _ => Meaning(e, false, depth, store)
  }

  /** e is `||` or `&&`, and its left operand settles its value. */
  predicate Settled(e: Expr, v: intmax) {
    e.Logical? && Decides(LevelOf(e), v)
  }

  /** The value of e when every variable is 0 and stays so, and a divisor of 0 counts as 1. */
  function ZeroValue(e: Expr): intmax {
    match e
    case Lit(text) => if StrLong(text).Constant? then StrLong(text).value else 0
    case Paren(e) => ZeroValue(e)
    case PreStep(tok, _) => Stepped(tok, 0)
    case Unary(tok, e) => ArithEval.Unary(tok, ZeroValue(e))
    case Power(l, r) => if ZeroValue(r) >= 0 then IPow(ZeroValue(l), ZeroValue(r)) else 0
    case Binary(tok, l, r) => ZeroApply(tok, ZeroValue(l), ZeroValue(r))
    case Logical(_, l, r) => ArithEval.Logical(LevelOf(e), ZeroValue(l), ZeroValue(r))
    case Ternary(c, t, f) => if ZeroValue(c) != 0 then ZeroValue(t) else ZeroValue(f)
    case Assign(tok, _, e) => if tok.OpAssign? then ZeroApply(tok.op, 0, ZeroValue(e)) else ZeroValue(e)
    case Sequence(_, r) => ZeroValue(r)
    case _ => 0
  }

  function ZeroApply(op: Tok, a: intmax, b: intmax): intmax {
    Apply(op, a, if (op == Div || op == Mod) && b == 0 then 1 else b)
  }

  /** Every constant of e is well formed, and every exponent is at least 0 when all variables are 0. */
  predicate Skippable(e: Expr) {
    match e
    case Lit(text) => StrLong(text).Constant?
    case Paren(e) => Skippable(e)
    case Unary(_, e) => Skippable(e)
    case Power(l, r) => Skippable(l) && Skippable(r) && ZeroValue(r) >= 0
    case Binary(_, l, r) => Skippable(l) && Skippable(r)
    case Logical(_, l, r) => Skippable(l) && Skippable(r)
    case Ternary(c, t, f) => Skippable(c) && Skippable(t) && Skippable(f)
    case Assign(_, _, e) => Skippable(e)
    case Sequence(l, r) => Skippable(l) && Skippable(r)
    case _ => true
  }

  /** Passing over an operand succeeds, with that value, if and only if the operand is such a tree. */
  lemma {:induction false} SkippableExactly(e: Expr, depth: nat, store: Store)
    requires depth <= MAX_EXPR_RECURSION_LEVEL
    ensures Meaning(e, true, depth, store).Found? <==> Skippable(e)
    ensures Skippable(e) ==> Meaning(e, true, depth, store).value == ZeroValue(e)
  {
    hide Apply, IPow, ArithEval.Logical, ArithEval.Unary, Stepped, StrLong, StrEval, LevelOf, Decides;
    if IsInfix(e) {
      SkippableExactly(e.l, depth, store);
      SkippableExactly(e.r, depth, store);
      MeaningOfInfix(e, true, depth, store);
      hide Meaning;
    } else {
      match e
      case Paren(e) => SkippableExactly(e, depth, store);
      case Unary(_, e) => SkippableExactly(e, depth, store);
      case Assign(_, _, e) => SkippableExactly(e, depth, store);
      case Ternary(c, t, f) =>
        SkippableExactly(c, depth, store);
        SkippableExactly(t, depth, store);
        SkippableExactly(f, depth, store);
      case _ =>
    }
  }

  /** Every operand that evaluating e passes over can be passed over. */
  predicate Quiet(e: Expr, depth: nat, store: Store)
    requires depth <= MAX_EXPR_RECURSION_LEVEL
    decreases e
  {
    if IsInfix(e) then
      && Quiet(e.l, depth, store)
      && var m := Ideal(e.l, depth, store);
         m.Found? ==> if Settled(e, m.value) then Skippable(e.r) else Quiet(e.r, depth, m.store)
    else match e
    case Paren(e) => Quiet(e, depth, store)
    case Unary(_, e) => Quiet(e, depth, store)
    case Ternary(c, t, f) =>
      && Quiet(c, depth, store)
      && var m := Ideal(c, depth, store);
         if m.Broken? then true
         else if m.value != 0 then Quiet(t, depth, m.store) && (Ideal(t, depth, m.store).Found? ==> Skippable(f))
         else Skippable(t) && Quiet(f, depth, m.store)
    case Assign(tok, name, e) =>
      var m := TargetMeaning(tok, name, false, depth, store);
      m.Found? ==> Quiet(e, depth, m.store)
    case _ => true
  }

  /** Short circuits are those of C exactly as long as every operand passed over can be passed over;
      otherwise evaluation fails, whatever the expression's value should be. */
  lemma {:induction false} SkippedOperandsMatter(e: Expr, depth: nat, store: Store)
    requires depth <= MAX_EXPR_RECURSION_LEVEL
    ensures Quiet(e, depth, store) ==> Meaning(e, false, depth, store) == Ideal(e, depth, store)
    ensures !Quiet(e, depth, store) ==> Meaning(e, false, depth, store).Broken?
    decreases e, 1
  {
    hide InfixMeaning, Decides, ArithEval.Unary, Stepped, StrEval, StrLong, Skippable, AssignMeaning, Apply, Assigned,
        IPow, Bind;
    if IsInfix(e) {
      InfixMatters(e, depth, store);
    } else {
      match e
      case Paren(e1) => SkippedOperandsMatter(e1, depth, store);
      case Unary(_, e1) => SkippedOperandsMatter(e1, depth, store);
      case Ternary(_, _, _) => TernaryMatters(e, depth, store);
      case Assign(_, _, _) => AssignMatters(e, depth, store);
      case _ =>
    }
  }

  lemma {:induction false} InfixMatters(e: Expr, depth: nat, store: Store)
    requires depth <= MAX_EXPR_RECURSION_LEVEL && IsInfix(e)
    ensures Quiet(e, depth, store) ==> Meaning(e, false, depth, store) == Ideal(e, depth, store)
    ensures !Quiet(e, depth, store) ==> Meaning(e, false, depth, store).Broken?
    decreases e, 0
  {
    hide Meaning, Apply, IPow;
    SkippedOperandsMatter(e.l, depth, store);
    MeaningOfInfix(e, false, depth, store);
    var m := Ideal(e.l, depth, store);
    if m.Found? {
      SkippedOperandsMatter(e.r, depth, m.store);
      SkippableExactly(e.r, depth, m.store);
    }
  }

  lemma {:induction false} TernaryMatters(e: Expr, depth: nat, store: Store)
    requires depth <= MAX_EXPR_RECURSION_LEVEL && e.Ternary?
    ensures Quiet(e, depth, store) ==> Meaning(e, false, depth, store) == Ideal(e, depth, store)
    ensures !Quiet(e, depth, store) ==> Meaning(e, false, depth, store).Broken?
    decreases e, 0
  {
    SkippedOperandsMatter(e.c, depth, store);
    var m := Ideal(e.c, depth, store);
    if m.Found? {
      var needed, passed := if m.value != 0 then e.t else e.f, if m.value != 0 then e.f else e.t;
      SkippedOperandsMatter(needed, depth, m.store);
      SkippableExactly(passed, depth, m.store);
      var m1 := Ideal(e.t, depth, m.store);
      SkippableExactly(e.f, depth, m1.store);
    }
  }

  lemma {:induction false} AssignMatters(e: Expr, depth: nat, store: Store)
    requires depth <= MAX_EXPR_RECURSION_LEVEL && e.Assign?
    ensures Quiet(e, depth, store) ==> Meaning(e, false, depth, store) == Ideal(e, depth, store)
    ensures !Quiet(e, depth, store) ==> Meaning(e, false, depth, store).Broken?
    decreases e, 0
  {
    hide Assigned;
    var m := TargetMeaning(e.tok, e.name, false, depth, store);
    if m.Found? {
      SkippedOperandsMatter(e.e, depth, m.store);
    }
  }

  /** Evaluating the text of a tree gives the value that C gives it if and only if every operand that is
      passed over can be. */
  lemma ShortCircuit(e: Expr, depth: nat, store: Store)
    requires WellFormed(e) && depth < MAX_EXPR_RECURSION_LEVEL && Ideal(e, depth + 1, store).Found?
    ensures SubExpr(Print(e, 0), depth, store) == Ideal(e, depth + 1, store) <==> Quiet(e, depth + 1, store)
  {
    hide *;
    EvaluatesTree(e, depth, store);
    SkippedOperandsMatter(e, depth + 1, store);
  }

  /** No operand that may be passed over has `**` or a malformed constant. */
  predicate Harmless(e: Expr, passed: bool)
    decreases e
  {
    match e
    case Lit(text) => passed ==> StrLong(text).Constant?
    case Paren(e) => Harmless(e, passed)
    case Unary(_, e) => Harmless(e, passed)
    case Assign(_, _, e) => Harmless(e, passed)
    case Ternary(c, t, f) => Harmless(c, passed) && Harmless(t, true) && Harmless(f, true)
    case Power(l, r) => !passed && Harmless(l, false) && Harmless(r, false)
    case Logical(_, l, r) => Harmless(l, passed) && Harmless(r, true)
    case Binary(_, l, r) => Harmless(l, passed) && Harmless(r, passed)
    case Sequence(l, r) => Harmless(l, passed) && Harmless(r, passed)
    case _ => true
  }

  lemma {:induction false} HarmlessIsSkippable(e: Expr)
    requires Harmless(e, true)
    ensures Skippable(e)
  {
    match e
    case Paren(e) => HarmlessIsSkippable(e);
    case Unary(_, e) => HarmlessIsSkippable(e);
    case Assign(_, _, e) => HarmlessIsSkippable(e);
    case Ternary(c, t, f) =>
      HarmlessIsSkippable(c);
      HarmlessIsSkippable(t);
      HarmlessIsSkippable(f);
    case Logical(_, l, r) =>
      HarmlessIsSkippable(l);
      HarmlessIsSkippable(r);
    case Binary(_, l, r) =>
      HarmlessIsSkippable(l);
      HarmlessIsSkippable(r);
    case Sequence(l, r) =>
      HarmlessIsSkippable(l);
      HarmlessIsSkippable(r);
    case _ =>
  }

  lemma {:induction false} HarmlessStays(e: Expr)
    requires Harmless(e, true)
    ensures Harmless(e, false)
  {
    match e
    case Paren(e) => HarmlessStays(e);
    case Unary(_, e) => HarmlessStays(e);
    case Assign(_, _, e) => HarmlessStays(e);
    case Ternary(c, _, _) => HarmlessStays(c);
    case Logical(_, l, _) => HarmlessStays(l);
    case Binary(_, l, r) => HarmlessStays(l); HarmlessStays(r);
    case Sequence(l, r) => HarmlessStays(l); HarmlessStays(r);
    case _ =>
  }

  /** A check on the tree alone that rules the difference out for every store. */
  lemma {:induction false} HarmlessIsQuiet(e: Expr, depth: nat, store: Store)
    requires depth <= MAX_EXPR_RECURSION_LEVEL && Harmless(e, false)
    ensures Quiet(e, depth, store)
  {
    hide Meaning, Skippable, LevelOf, Decides, InfixMeaning, AssignMeaning;
    if IsInfix(e) {
      HarmlessIsQuiet(e.l, depth, store);
      if e.Logical? {
        HarmlessStays(e.r);
        HarmlessIsSkippable(e.r);
      }
      HarmlessIsQuiet(e.r, depth, Ideal(e.l, depth, store).store);
    } else {
      match e
      case Paren(e) => HarmlessIsQuiet(e, depth, store);
      case Unary(_, e) => HarmlessIsQuiet(e, depth, store);
      case Assign(tok, name, e) => HarmlessIsQuiet(e, depth, TargetMeaning(tok, name, false, depth, store).store);
      case Ternary(c, t, f) =>
        HarmlessIsQuiet(c, depth, store);
        var s := Ideal(c, depth, store).store;
        HarmlessStays(t);
        HarmlessStays(f);
        HarmlessIsQuiet(t, depth, s);
        HarmlessIsQuiet(f, depth, s);
        HarmlessIsSkippable(t);
        HarmlessIsSkippable(f);
      case _ =>
    }
  }

  /** 1 || 2 ** (x - 1) */
  function OneOrPower(): Expr {
    Logical(LOr, Lit("1"), Expr.Power(Lit("2"), Paren(Binary(Minus, Var("x"), Lit("1")))))
  }

  /** `1 || 2 ** (x - 1)` is 1 in C, whatever x is; here it is an error. */
  lemma NegativeExponentIsNotSkipped(depth: nat, store: Store)
    requires depth < MAX_EXPR_RECURSION_LEVEL
    ensures Ideal(OneOrPower(), depth + 1, store) == Found(1, store)
    ensures SubExpr(Print(OneOrPower(), 0), depth, store) == Broken(NegativeExponent, store)
  {
    hide *;
    OneOrPowerMeans(depth + 1, store);
    EvaluatesTree(OneOrPower(), depth, store);
  }

  lemma OneOrPowerMeans(depth: nat, store: Store)
    requires depth <= MAX_EXPR_RECURSION_LEVEL
    ensures WellFormed(OneOrPower())
    ensures Ideal(OneOrPower(), depth, store) == Found(1, store)
    ensures Meaning(OneOrPower(), false, depth, store) == Broken(NegativeExponent, store)
  {
    hide Meaning, StrLong, IPow, Apply;
    var e := OneOrPower();
    MeaningOfInfix(e, false, depth, store);
    MeaningOfInfix(e.r, true, depth, store);
    ConstantMeans("1", 1, false, depth, store);
    ConstantMeans("2", 2, true, depth, store);
    MinusOne(e.r.r, depth, store);
  }

  lemma ConstantMeans(text: string, n: nat, skip: bool, depth: nat, store: Store)
    requires depth <= MAX_EXPR_RECURSION_LEVEL && ((text == "1" && n == 1) || (text == "2" && n == 2))
    ensures Meaning(Lit(text), skip, depth, store) == Found(n, store)
  {
    hide StrLong;
    OneAndTwo();
  }

  lemma MinusOne(e: Expr, depth: nat, store: Store)
    requires depth <= MAX_EXPR_RECURSION_LEVEL && e == Paren(Binary(Minus, Var("x"), Lit("1")))
    ensures Meaning(e, true, depth, store) == Found(-1, store)
  {
    hide StrLong;
    OneAndTwo();
  }

  lemma OneAndTwo()
    ensures StrLong("1") == Constant(1) && StrLong("2") == Constant(2)
  {
    assert Digits(1) == "1" && Digits(2) == "2";
    hide Digits, StrLong;
    StrLongOfDigits(1);
    StrLongOfDigits(2);
  }
}
