/** The value of an expression tree, and the proof that the one-pass evaluator computes it from the
    tree's text. */
module ArithSyntax {
  import opened Numbers
  import opened ArithTokens
  import opened ArithEval
  import opened ArithText
  import opened Strings
  import opened Wrappers

  // ---------- meaning ----------

  /** The value of e and the variables after it. With `skip` e is an operand whose value is not
      needed: variables read as 0, nothing is assigned, a divisor of 0 counts as 1. */
  function Meaning(e: Expr, skip: bool, depth: nat, store: Store): (r: Looked)
    requires depth <= MAX_EXPR_RECURSION_LEVEL
    ensures skip ==> r.store == store
    decreases e
  {
    match e
    case Lit(text) =>
      (match StrLong(text)
       case NoConstant => Broken(BadNumber, store)
       case Constant(v) => Found(v, store))
    case Var(name) => Value(name, skip, depth, store)
    case Unread(_) => Found(0, store)
    case Paren(e) => Meaning(e, skip, depth, store)
    case PreStep(tok, name) =>
      (match Value(name, skip, depth, store)
       case Broken(x, s) => Broken(x, s)
       case Found(v, s) => Found(Stepped(tok, v), Stored(skip, s, name, Stepped(tok, v))))
    case PostStep(tok, name) =>
      (match Value(name, skip, depth, store)
       case Broken(x, s) => Broken(x, s)
       case Found(v, s) => Found(v, Stored(skip, s, name, Stepped(tok, v))))
    case Unary(tok, e) =>
      (match Meaning(e, skip, depth, store)
       case Broken(x, s) => Broken(x, s)
       case Found(v, s) => Found(ArithEval.Unary(tok, v), s))
    case Power(l, r) =>
      (match Meaning(l, skip, depth, store)
       case Broken(x, s) => Broken(x, s)
       case Found(v, s) =>
         match Meaning(r, skip, depth, s)
         case Broken(x, s) => Broken(x, s)
         case Found(w, s) => if w < 0 then Broken(NegativeExponent, s) else Found(IPow(v, w), s))
    case Binary(tok, l, r) =>
      (match Meaning(l, skip, depth, store)
       case Broken(x, s) => Broken(x, s)
       case Found(v, s) =>
         match Meaning(r, skip, depth, s)
         case Broken(x, s) => Broken(x, s)
         case Found(w, s) =>
           if (tok == Div || tok == Mod) && w == 0 then
             if skip then Found(Apply(tok, v, 1), s) else Broken(DivisionByZero, s)
           else Found(Apply(tok, v, w), s))
    case Logical(tok, l, r) =>
      (match Meaning(l, skip, depth, store)
       case Broken(x, s) => Broken(x, s)
       case Found(v, s) =>
         var k := LevelOf(e);
         match Meaning(r, skip || Decides(k, v), depth, s)
         case Broken(x, s) => Broken(x, s)
         case Found(w, s) => Found(ArithEval.Logical(k, v, w), s))
    case Ternary(c, t, f) =>
      (match Meaning(c, skip, depth, store)
       case Broken(x, s) => Broken(x, s)
       case Found(v, s) =>
         match Meaning(t, skip || v == 0, depth, s)
         case Broken(x, s) => Broken(x, s)
         case Found(v1, s) =>
           match Meaning(f, skip || v != 0, depth, s)
           case Broken(x, s) => Broken(x, s)
           case Found(v2, s) => Found(if v != 0 then v1 else v2, s))
    case Assign(tok, name, e) =>
      (match if tok == Eq then Found(0, store) else Value(name, skip, depth, store)
       case Broken(x, s) => Broken(x, s)
       case Found(current, s) =>
         match Meaning(e, skip, depth, s)
         case Broken(x, s) => Broken(x, s)
         case Found(w, s) =>
           match Assigned(tok, if skip then 1 else 0, current, w)
           case None => Broken(DivisionByZero, s)
           case Some(v) => Found(v, Stored(skip, s, name, v)))
    case Sequence(l, r) =>
      (match Meaning(l, skip, depth, store)
       case Broken(x, s) => Broken(x, s)
       case Found(_, s) => Meaning(r, skip, depth, s))
  }

  function Value(name: string, skip: bool, depth: nat, store: Store): (r: Looked)
    requires depth <= MAX_EXPR_RECURSION_LEVEL
    ensures skip ==> r == Found(0, store)
  {
    StrEval(name, if skip then 1 else 0, depth, store)
  }

  function Stored(skip: bool, store: Store, name: string, v: intmax): Store {
    if skip then store else Bind(store, Some(name), v)
  }

  // ---------- infix operators ----------

  predicate IsInfix(e: Expr) {
    e.Binary? || e.Logical? || e.Sequence? || e.Power?
  }

  function OpOf(e: Expr): Tok
    requires IsInfix(e)
  {
    if e.Binary? || e.Logical? then e.tok else if e.Sequence? then Comma else Tok.Power
  }

  function LeftLevel(e: Expr): nat
    requires IsInfix(e)
  {
    if e.Power? then 14 else LevelOf(e)
  }

  function RightLevel(e: Expr): nat
    requires IsInfix(e)
  {
    if e.Power? then 13 else LevelOf(e) + 1
  }

  /** The suppression counter for the right operand, when the left one is v. */
  function RightNoeval(e: Expr, v: intmax, noeval: nat): nat {
    if e.Logical? && Decides(LevelOf(e), v) then noeval + 1 else noeval
  }

  /** The meaning of e from its left operand's value and its right operand's meaning. */
  function InfixMeaning(e: Expr, skip: bool, v: intmax, m: Looked): Looked
    requires IsInfix(e)
  {
    if m.Broken? then m
    else if e.Binary? then
      if (e.tok == Div || e.tok == Mod) && m.value == 0 then
        if skip then Found(Apply(e.tok, v, 1), m.store) else Broken(DivisionByZero, m.store)
      else Found(Apply(e.tok, v, m.value), m.store)
    else if e.Logical? then Found(ArithEval.Logical(LevelOf(e), v, m.value), m.store)
    else if e.Power? then if m.value < 0 then Broken(NegativeExponent, m.store) else Found(IPow(v, m.value), m.store)
    else m
  }

  lemma MeaningOfInfix(e: Expr, skip: bool, depth: nat, store: Store)
    requires IsInfix(e) && depth <= MAX_EXPR_RECURSION_LEVEL
    ensures var m := Meaning(e.l, skip, depth, store);
            Meaning(e, skip, depth, store) ==
            if m.Broken? then m
            else InfixMeaning(e, skip, m.value, Meaning(e.r, skip || RightNoeval(e, m.value, 0) > 0, depth, m.store))
  {
    hide Apply, IPow, ArithEval.Logical, Decides, LevelOf;
  }

  lemma InfixText(e: Expr)
    requires IsInfix(e)
    ensures PrintBare(e) == Print(e.l, LeftLevel(e)) + Spaced(OpText(OpOf(e))) + Print(e.r, RightLevel(e))
  {
    hide Spaced;
    OperatorTexts();
    hide OpText;
  }

  lemma OperatorTexts()
    ensures OpText(Comma) == "," && OpText(Tok.Power) == "**" && OpText(Ques) == "?" && OpText(Col) == ":"
  {
  }

  lemma InfixFacts(e: Expr)
    requires IsInfix(e) && Formed(e)
    ensures Formed(e.l) && Formed(e.r) && InfixLevel(OpOf(e)) == LevelOf(e) && AfterOperand(OpOf(e))
            && OpOf(e) != End
    ensures LeftLevel(e) <= 14 && RightLevel(e) <= 15 && LevelOf(e) <= 13 && LevelOf(e) <= LeftLevel(e)
    ensures RightAssociative(LevelOf(e)) ==> LevelOf(e) < LeftLevel(e)
    ensures LevelOf(e) < RightLevel(e) || e.Power?
  {
    hide OpText, Print, PrintBare;
    OperandsFormed(e);
    hide Formed;
    OperatorLevel(e);
  }

  lemma OperandsFormed(e: Expr)
    requires IsInfix(e) && Formed(e)
    ensures Formed(e.l) && Formed(e.r)
    ensures e.Binary? ==> 5 <= InfixLevel(e.tok) <= 12
    ensures e.Logical? ==> e.tok == LOr || e.tok == LAnd
  {
    hide IsNameText, IsLiteralText, Assignable;
  }

  lemma OperatorLevel(e: Expr)
    requires IsInfix(e) && (e.Binary? ==> 5 <= InfixLevel(e.tok) <= 12)
             && (e.Logical? ==> e.tok == LOr || e.tok == LAnd)
    ensures InfixLevel(OpOf(e)) == LevelOf(e) && AfterOperand(OpOf(e)) && OpOf(e) != End
  {
    hide Formed;
  }

  // ---------- the state before and after an operand ----------

  /** The tokens that may come after an operand. */
  predicate AfterOperand(tok: Tok) {
    tok == End || tok == RPar || tok == Col
        || (InfixLevel(tok) >= 0 && (tok.OpAssign? ==> Assignable(tok)))
  }

  /** Read a token, and from there an operand of level k. */
  function Run(k: nat, st: State): Result
    requires Valid(st) && k <= 15
  {
    var r := ReadTok(st);
    if r.Fail? then r else Level(k, r.st)
  }

  /** What level k does with its first operand. */
  function Rest(k: nat, v: intmax, st: State): Result
    requires Valid(st) && k <= 15
  {
    if k <= 13 then Tail(k, v, st) else Ok(v, st)
  }

  /** st' is st after an operand that leaves `store`, with the token tok, up to q, read after it. */
  predicate After(st: State, store: Store, tok: Tok, q: nat, st': State) {
    && st'.text == st.text && st'.depth == st.depth && st'.noeval == st.noeval
    && st'.tp == q && q <= |st.text| && st'.curtok == tok && st'.store == store
    && st'.lasttok != PreInc && st'.lasttok != PreDec
  }

  /** From st, level k reads an operand with meaning m and goes on in st'; or it reports m's error. */
  predicate Simulates(k: nat, st: State, m: Looked, tok: Tok, q: nat, st': State) {
    && Valid(st) && k <= 15
    && if m.Found? then Valid(st') && After(st, m.store, tok, q, st') && Run(k, st) == Rest(k, m.value, st')
       else Run(k, st) == Fail(m.error, m.store)
  }

  /** After its first operand v, level k goes on from st as it would in st' after a first operand
      with meaning m; or it reports m's error. */
  predicate Steps(k: nat, v: intmax, st: State, m: Looked, tok: Tok, q: nat, st': State) {
    && Valid(st) && k <= 13
    && if m.Found? then Valid(st') && After(st, m.store, tok, q, st') && Tail(k, v, st) == Tail(k, m.value, st')
       else Tail(k, v, st) == Fail(m.error, m.store)
  }

  lemma FoundFacts(k: nat, st: State, m: Looked, tok: Tok, q: nat, st': State)
    requires Simulates(k, st, m, tok, q, st') && m.Found?
    ensures Valid(st') && After(st, m.store, tok, q, st') && Run(k, st) == Rest(k, m.value, st')
  {
    hide Run, Rest, Valid;
  }

  lemma SimulatesFound(k: nat, st: State, s: State, v: intmax, tok: Tok, q: nat, st': State)
    requires Valid(st) && k <= 15 && ReadTok(st) == Ok(0, s) && Valid(s) && Valid(st')
    requires Level(k, s) == Rest(k, v, st') && After(st, st'.store, tok, q, st')
    ensures Simulates(k, st, Found(v, st'.store), tok, q, st')
  {
    hide ReadTok, Level, Rest, Keeps, Left;
  }

  lemma SimulatesFail(k: nat, st: State, m: Looked, tok: Tok, q: nat, st': State)
    requires Valid(st) && k <= 15 && m.Broken?
    requires ReadTok(st) == Fail(m.error, m.store)
             || (ReadTok(st).Ok? && Level(k, ReadTok(st).st) == Fail(m.error, m.store))
    ensures Simulates(k, st, m, tok, q, st')
  {
    hide ReadTok, Level, Rest, Keeps, Left;
  }

  lemma RestIdle(k: nat, v: intmax, st: State)
    requires Valid(st) && k <= 15 && InfixLevel(st.curtok) < k
    ensures Rest(k, v, st) == Ok(v, st)
  {
    hide ReadTok, Level, Operand, CondElse, Keeps, Left;
    if k == 0 {
      assert TailComma(v, st) == Ok(v, st);
    } else if k == 1 {
      assert TailAssign(v, st) == Ok(v, st);
    } else if k == 2 {
      assert TailCond(v, st) == Ok(v, st);
    } else if k <= 4 {
      assert TailLogical(k, v, st) == Ok(v, st);
    } else if k <= 12 {
      assert TailBinary(k, v, st) == Ok(v, st);
    } else if k == 13 {
      assert TailPower(v, st) == Ok(v, st);
    }
  }

  lemma RestIsTail(k: nat, v: intmax, st: State)
    requires Valid(st) && k <= 15
    ensures k <= 13 ==> Rest(k, v, st) == Tail(k, v, st)
    ensures k > 13 ==> Rest(k, v, st) == Ok(v, st)
  {
    hide Tail;
  }

  lemma RunCases(k: nat, st: State)
    requires Valid(st) && k <= 15
    ensures ReadTok(st).Fail? ==> Run(k, st) == ReadTok(st)
    ensures ReadTok(st).Ok? ==> Valid(ReadTok(st).st) && Run(k, st) == Level(k, ReadTok(st).st)
    ensures Run(k, st).Ok? ==> Valid(Run(k, st).st)
  {
    hide ReadTok, Level, Left;
  }

  lemma LevelCases(k: nat, st: State)
    requires Valid(st) && k < 15
    ensures var r := Level(k + 1, st);
            && (r.Ok? ==> Valid(r.st))
            && (k <= 13 ==> Level(k, st) == if r.Fail? then r else Rest(k, r.value, r.st))
            && (k == 14 && !IsUnary(st.curtok) ==> Level(k, st) == r)
  {
    hide ReadTok, Tail, Exp0, Operand, Left;
  }

  /** An operand read at a tighter level is read the same way at the next looser one. */
  lemma DescendOne(j: nat, st: State, m: Looked, tok: Tok, q: nat, st': State)
    requires 0 < j && Simulates(j, st, m, tok, q, st') && InfixLevel(tok) < j
    requires j == 15 && ReadTok(st).Ok? ==> !IsUnary(ReadTok(st).st.curtok)
    ensures Simulates(j - 1, st, m, tok, q, st')
  {
    hide ReadTok, Level, Run, Rest, Keeps, Left, Valid;
    RunCases(j, st);
    RunCases(j - 1, st);
    if ReadTok(st).Ok? {
      LevelCases(j - 1, ReadTok(st).st);
    }
    if m.Found? {
      RestIdle(j, m.value, st');
      RestIsTail(j - 1, m.value, st');
    }
  }

  lemma {:induction false} Descend(j: nat, k: nat, st: State, m: Looked, tok: Tok, q: nat, st': State)
    requires k <= j <= 15 && Simulates(j, st, m, tok, q, st') && InfixLevel(tok) <= k
    requires j == 15 && k < 15 && ReadTok(st).Ok? ==> !IsUnary(ReadTok(st).st.curtok)
    ensures Simulates(k, st, m, tok, q, st')
    decreases j - k
  {
    hide *;
    if k < j {
      DescendOne(j, st, m, tok, q, st');
      Descend(j - 1, k, st, m, tok, q, st');
    }
  }

  /** An operand followed by an operator that binds less tightly is all that its level reads. */
  lemma WholeOperand(k: nat, st: State, m: Looked, tok: Tok, q: nat, st': State)
    requires Simulates(k, st, m, tok, q, st') && InfixLevel(tok) < k
    ensures Run(k, st) == if m.Found? then Ok(m.value, st') else Fail(m.error, m.store)
    ensures m.Found? ==> Valid(st') && After(st, m.store, tok, q, st')
  {
    hide Run, Rest, Valid;
    if m.Found? {
      RestIdle(k, m.value, st');
    }
  }

  /** One more step of a level after its first operand. */
  lemma Chain(k: nat, st: State, m1: Looked, tok1: Tok, q1: nat, st1: State, m: Looked, tok: Tok, q: nat, st': State)
    requires k <= 13 && Simulates(k, st, m1, tok1, q1, st1)
    requires if m1.Broken? then m == m1 else Steps(k, m1.value, st1, m, tok, q, st')
    ensures Simulates(k, st, m, tok, q, st')
  {
    hide Run, Rest, Tail, Valid;
    if m1.Found? {
      RestIsTail(k, m1.value, st1);
      if m.Found? {
        RestIsTail(k, m.value, st');
      }
    }
  }

  lemma OperandIsRun(k: nat, st: State)
    requires Valid(st) && k <= 15 && st.curtok != End
    ensures Operand(k, st) == Run(k, st)
  {
    hide ReadTok, Level, Keeps, Left;
  }

  // ---------- one step of each tail ----------

  lemma BinaryCases(k: nat, v: intmax, st: State)
    requires Valid(st) && 5 <= k <= 12 && InfixLevel(st.curtok) == k
    ensures var op, r := st.curtok, Run(k + 1, st);
            && (r.Ok? ==> Valid(r.st) && r.st.noeval == st.noeval)
            && var byZero := r.Ok? && (op == Div || op == Mod) && r.value == 0;
               Tail(k, v, st) ==
               if r.Fail? then r
               else if byZero && st.noeval == 0 then Fail(DivisionByZero, r.st.store)
               else
                 var divisor: intmax := if byZero then 1 else r.value;
                 var last := if op == Mod && v == INTMAX_MIN && divisor == -1 then r.st.lasttok else Num;
                 Tail(k, Apply(op, v, divisor), r.st.(lasttok := last))
  {
    hide ReadTok, Level, Run, Apply, Left;
    OperandIsRun(k + 1, st);
    assert Tail(k, v, st) == TailBinary(k, v, st);
  }

  lemma LogicalCases(k: nat, v: intmax, st: State)
    requires Valid(st) && 3 <= k <= 4 && st.curtok == LogicalTok(k)
    ensures var r := Run(k + 1, st.(noeval := if Decides(k, v) then st.noeval + 1 else st.noeval));
            && (r.Ok? ==> Valid(r.st))
            && Tail(k, v, st) ==
               if r.Fail? then r
               else Tail(k, ArithEval.Logical(k, v, r.value), r.st.(noeval := st.noeval, lasttok := LogicalTok(k)))
  {
    hide ReadTok, Level, Run, ArithEval.Logical, Left;
    OperandIsRun(k + 1, st.(noeval := if Decides(k, v) then st.noeval + 1 else st.noeval));
    assert Tail(k, v, st) == TailLogical(k, v, st);
  }

  lemma CommaCases(v: intmax, st: State)
    requires Valid(st) && st.curtok == Comma
    ensures var r := Run(1, st);
            (r.Ok? ==> Valid(r.st)) && Tail(0, v, st) == if r.Fail? then r else Tail(0, r.value, r.st)
  {
    hide ReadTok, Level, Run, Left;
    OperandIsRun(1, st);
    assert Tail(0, v, st) == TailComma(v, st);
  }

  lemma PowerCases(v: intmax, st: State)
    requires Valid(st) && st.curtok == Tok.Power
    ensures var r := Run(13, st);
            && (r.Ok? ==> Valid(r.st))
            && Tail(13, v, st) ==
               if r.Fail? then r
               else if r.value == 0 then Ok(1, r.st.(lasttok := Num))
               else if r.value < 0 then Fail(NegativeExponent, r.st.store)
               else Tail(13, IPow(v, r.value), r.st.(lasttok := Num))
  {
    hide ReadTok, Level, Run, IPow, Left;
    OperandIsRun(13, st);
    assert Tail(13, v, st) == TailPower(v, st);
  }

  lemma StepsFound(k: nat, v: intmax, st: State, w: intmax, tok: Tok, q: nat, st': State)
    requires Valid(st) && k <= 13 && Valid(st') && After(st, st'.store, tok, q, st')
             && Tail(k, v, st) == Tail(k, w, st')
    ensures Steps(k, v, st, Found(w, st'.store), tok, q, st')
  {
    hide Tail, After, Valid;
  }

  /** The same, for a tail that is over. */
  lemma StepsDone(k: nat, v: intmax, st: State, w: intmax, tok: Tok, q: nat, st': State)
    requires Valid(st) && k <= 13 && Valid(st') && After(st, st'.store, tok, q, st') && Tail(k, v, st) == Ok(w, st')
    requires InfixLevel(tok) < k
    ensures Steps(k, v, st, Found(w, st'.store), tok, q, st')
  {
    hide Tail, Rest, Valid;
    RestIdle(k, w, st');
    RestIsTail(k, w, st');
  }

  lemma StepsFail(k: nat, v: intmax, st: State, m: Looked, tok: Tok, q: nat, st': State)
    requires Valid(st) && k <= 13 && m.Broken? && Tail(k, v, st) == Fail(m.error, m.store)
    ensures Steps(k, v, st, m, tok, q, st')
  {
    hide Tail, Valid;
  }

  /** The last token after an infix expression with left value v, when st1 is the state after its right operand:
      only the remainder that leaves the loop of expmuldiv early keeps the last token of that operand. */
  predicate InfixLeaves(e: Expr, v: intmax, m: Looked, st1: State, st2: State) {
    e.Sequence? ||
    if e.Binary? && e.tok == Mod && v == INTMAX_MIN && m.Found? && m.value == -1
    then st2.lasttok == st1.lasttok && st2.tokstr == st1.tokstr else st2.lasttok != Str
  }

  lemma BinaryStep(e: Expr, v: intmax, st: State, m: Looked, tok: Tok, q: nat, st1: State) returns (st2: State)
    requires e.Binary? && Formed(e) && Valid(st) && st.curtok == e.tok && InfixLevel(tok) <= LevelOf(e)
    requires Simulates(LevelOf(e) + 1, st, m, tok, q, st1)
    ensures Steps(LevelOf(e), v, st, InfixMeaning(e, st.noeval > 0, v, m), tok, q, st2)
    ensures InfixMeaning(e, st.noeval > 0, v, m).Found? ==> InfixLeaves(e, v, m, st1, st2)
  {
    hide Run, Tail, Apply, Simulates, Steps;
    var k := LevelOf(e);
    WholeOperand(k + 1, st, m, tok, q, st1);
    BinaryCases(k, v, st);
    var m' := InfixMeaning(e, st.noeval > 0, v, m);
    if m'.Found? {
      var divisor: intmax := if (e.tok == Div || e.tok == Mod) && m.value == 0 then 1 else m.value;
      st2 := st1.(lasttok := if e.tok == Mod && v == INTMAX_MIN && divisor == -1 then st1.lasttok else Num);
      StepsFound(k, v, st, Apply(e.tok, v, divisor), tok, q, st2);
    } else {
      st2 := st1;
      StepsFail(k, v, st, m', tok, q, st2);
    }
  }

  lemma LogicalMeans(e: Expr, skip: bool, v: intmax, m: Looked)
    requires e.Logical?
    ensures InfixMeaning(e, skip, v, m) ==
            if m.Broken? then m else Found(ArithEval.Logical(LevelOf(e), v, m.value), m.store)
  {
    hide ArithEval.Logical;
  }

  lemma LogicalLevel(e: Expr)
    requires e.Logical? && Formed(e)
    ensures 3 <= LevelOf(e) <= 4 && e.tok == LogicalTok(LevelOf(e)) && e.tok in {LOr, LAnd}
  {
    hide IsNameText, IsLiteralText;
  }

  /** The tail of explor or expland at its operator, given how the right operand is read. */
  lemma LogicalTail(k: nat, v: intmax, st: State, m: Looked, tok: Tok, q: nat, st1: State) returns (st2: State)
    requires 3 <= k <= 4 && Valid(st) && st.curtok == LogicalTok(k) && InfixLevel(tok) <= k
    requires Simulates(k + 1, st.(noeval := if Decides(k, v) then st.noeval + 1 else st.noeval), m, tok, q, st1)
    ensures Steps(k, v, st, if m.Broken? then m else Found(ArithEval.Logical(k, v, m.value), m.store), tok, q, st2)
    ensures m.Found? ==> st2.lasttok == LogicalTok(k)
  {
    hide Run, Tail, ArithEval.Logical, Simulates, Decides, Steps;
    var inner := st.(noeval := if Decides(k, v) then st.noeval + 1 else st.noeval);
    WholeOperand(k + 1, inner, m, tok, q, st1);
    LogicalCases(k, v, st);
    if m.Found? {
      st2 := st1.(noeval := st.noeval, lasttok := LogicalTok(k));
      StepsFound(k, v, st, ArithEval.Logical(k, v, m.value), tok, q, st2);
    } else {
      st2 := st1;
      StepsFail(k, v, st, m, tok, q, st2);
    }
  }

  lemma LogicalStep(e: Expr, v: intmax, st: State, m: Looked, tok: Tok, q: nat, st1: State) returns (st2: State)
    requires e.Logical? && Formed(e) && Valid(st) && st.curtok == e.tok && InfixLevel(tok) <= LevelOf(e)
    requires Simulates(LevelOf(e) + 1, st.(noeval := RightNoeval(e, v, st.noeval)), m, tok, q, st1)
    ensures Steps(LevelOf(e), v, st, InfixMeaning(e, st.noeval > 0, v, m), tok, q, st2)
    ensures m.Found? ==> st2.lasttok == e.tok
  {
    hide ArithEval.Logical, Simulates, Decides, Steps, InfixMeaning, Formed, LevelOf, LogicalTok, Valid;
    LogicalLevel(e);
    LogicalMeans(e, st.noeval > 0, v, m);
    st2 := LogicalTail(LevelOf(e), v, st, m, tok, q, st1);
  }

  lemma PowerStep(e: Expr, v: intmax, st: State, m: Looked, tok: Tok, q: nat, st1: State) returns (st2: State)
    requires e.Power? && Valid(st) && st.curtok == Tok.Power && InfixLevel(tok) < 13
    requires Simulates(13, st, m, tok, q, st1)
    ensures Steps(13, v, st, InfixMeaning(e, st.noeval > 0, v, m), tok, q, st2)
    ensures InfixMeaning(e, st.noeval > 0, v, m).Found? ==> InfixLeaves(e, v, m, st1, st2)
  {
    hide Run, Tail, IPow, Simulates, Steps;
    WholeOperand(13, st, m, tok, q, st1);
    PowerCases(v, st);
    PowerOfZero(v);
    st2 := st1;
    if m.Broken? || m.value < 0 {
      StepsFail(13, v, st, InfixMeaning(e, st.noeval > 0, v, m), tok, q, st2);
    } else {
      st2 := st1.(lasttok := Num);
      if m.value == 0 {
        StepsDone(13, v, st, 1, tok, q, st2);
      } else {
        StepsFound(13, v, st, IPow(v, m.value), tok, q, st2);
      }
    }
  }

  /** A level's tail at an infix operator, given how the right operand is read. */
  lemma InfixStep(e: Expr, v: intmax, st: State, m: Looked, tok: Tok, q: nat, st1: State) returns (st2: State)
    requires IsInfix(e) && Formed(e) && Valid(st) && st.curtok == OpOf(e) && Follows(e, LevelOf(e), tok)
    requires Simulates(RightLevel(e), st.(noeval := RightNoeval(e, v, st.noeval)), m, tok, q, st1)
    ensures Steps(LevelOf(e), v, st, InfixMeaning(e, st.noeval > 0, v, m), tok, q, st2)
    ensures InfixMeaning(e, st.noeval > 0, v, m).Found? ==> InfixLeaves(e, v, m, st1, st2)
  {
    hide Run, Tail, Simulates, Steps, AfterOperand, InfixMeaning, After, Valid, Decides;
    SameNoeval(st);
    if e.Binary? {
      st2 := BinaryStep(e, v, st, m, tok, q, st1);
    } else if e.Logical? {
      st2 := LogicalStep(e, v, st, m, tok, q, st1);
      LogicalLeaves(e, v, m, st.noeval > 0, st1, st2);
    } else if e.Power? {
      st2 := PowerStep(e, v, st, m, tok, q, st1);
    } else {
      st2 := st1;
      SequenceStep(e, v, st, m, tok, q, st1);
    }
  }

  lemma LogicalLeaves(e: Expr, v: intmax, m: Looked, skip: bool, st1: State, st2: State)
    requires e.Logical? && Formed(e) && (m.Found? ==> st2.lasttok == e.tok)
    ensures InfixMeaning(e, skip, v, m).Found? ==> InfixLeaves(e, v, m, st1, st2)
  {
    hide ArithEval.Logical, LevelOf;
  }

  lemma SameNoeval(st: State)
    ensures st.(noeval := st.noeval) == st
  {
  }

  lemma SequenceStep(e: Expr, v: intmax, st: State, m: Looked, tok: Tok, q: nat, st1: State)
    requires e.Sequence? && Valid(st) && st.curtok == Comma && InfixLevel(tok) <= 0 && Simulates(1, st, m, tok, q, st1)
    ensures Steps(0, v, st, InfixMeaning(e, st.noeval > 0, v, m), tok, q, st1)
  {
    hide Run, Tail, Simulates, Steps;
    WholeOperand(1, st, m, tok, q, st1);
    CommaCases(v, st);
    if m.Found? {
      StepsFound(0, v, st, m.value, tok, q, st1);
    } else {
      StepsFail(0, v, st, m, tok, q, st1);
    }
  }

  lemma PowerOfZero(v: intmax)
    ensures IPow(v, 0) == 1
  {
  }

  predicate Follows(e: Expr, k: nat, tok: Tok) {
    AfterOperand(tok) && InfixLevel(tok) <= k && (LevelOf(e) == k && RightAssociative(k) ==> InfixLevel(tok) < k)
    && Placed(e, k, tok)
  }

  // ---------- primary and unary expressions ----------

  /** The meaning of e in st. */
  function MeaningAt(e: Expr, st: State): Looked
    requires Valid(st)
  {
    Meaning(e, st.noeval > 0, st.depth, st.store)
  }

  /** The text of e stands at st's position, tok comes after it, and an operand is expected. */
  predicate Poised(e: Expr, text: string, st: State, tok: Tok, q: nat) {
    Formed(e) && Ready(st) && Holds(st.text, st.tp, text) && NextIs(st.text, st.tp + |text|, tok, q)
  }

  /** The first token of e, if it can be read. */
  predicate Starts(st: State, e: Expr) {
    Valid(st) && (ReadTok(st).Ok? ==> StartTok(ReadTok(st).st.curtok, LevelOf(e)))
  }

  predicate StartTok(tok: Tok, k: nat) {
    tok != End && tok != Col && (k == 15 ==> !IsUnary(tok))
  }

  lemma ReadableAfter(tok: Tok, curtok: Tok)
    requires AfterOperand(tok)
    ensures tok == End || Readable(tok, curtok)
    ensures tok != PostInc && tok != PostDec
  {
  }

  lemma ValueIsStrEval(name: string, noeval: nat, depth: nat, store: Store)
    requires depth <= MAX_EXPR_RECURSION_LEVEL
    ensures StrEval(name, noeval, depth, store) == Value(name, noeval > 0, depth, store)
  {
    hide SubExpr;
  }

  lemma PrimaryCases(st: State)
    requires Valid(st)
    ensures st.curtok == Num ==> Level(15, st) == ReadAfter(st.tokval, st)
    ensures st.curtok == Str ==> Level(15, st) == Variable(st)
    ensures st.curtok == PreInc || st.curtok == PreDec ==> Level(15, st) == ArithEval.PreStep(st)
    ensures st.curtok == LPar ==>
              var r := Run(0, st);
              && (r.Ok? ==> Valid(r.st))
              && Level(15, st) == if r.Fail? then r else if r.st.curtok != RPar then Fail(MissingParen, r.st.store)
                  else ReadAfter(r.value, r.st)
  {
    hide ReadTok, Run, Variable, ReadAfter, ArithEval.PreStep, Left;
    if st.curtok == LPar {
      OperandIsRun(0, st);
    }
    assert Level(15, st) == Exp0(st);
  }

  lemma ReadAfterNext(v: intmax, st: State, tok: Tok, q: nat)
    requires Valid(st) && NextIs(st.text, st.tp, tok, q) && (tok == End || Readable(tok, st.curtok))
    ensures q <= |st.text| && ReadAfter(v, st) == Ok(v, Advanced(st, tok, q))
  {
    hide ReadTok, NextIs, Readable, Keeps, Left;
    ReadNext(st, tok, q);
  }

  lemma SpacedLength(s: string)
    ensures |Spaced(s)| == |s| + 1
  {
  }

  /** A primary expression that is read up to p, and then the token after it. */
  lemma PrimaryRead(st: State, s: State, v: intmax, before: State, tok: Tok, q: nat) returns (st': State)
    requires Valid(st) && Valid(before) && ReadTok(st) == Ok(0, s) && Valid(s) && Level(15, s) == ReadAfter(v, before)
    requires before.text == st.text && before.depth == st.depth && before.noeval == st.noeval
    requires before.curtok != PreInc && before.curtok != PreDec
    requires NextIs(st.text, before.tp, tok, q) && AfterOperand(tok)
    ensures Simulates(15, st, Found(v, before.store), tok, q, st') && st' == Advanced(before, tok, q)
  {
    hide ReadTok, Level, ReadAfter, NextIs, AfterOperand, Readable, Simulates, Rest;
    ReadableAfter(tok, before.curtok);
    ReadAfterNext(v, before, tok, q);
    st' := Advanced(before, tok, q);
    RestIsTail(15, v, st');
    SimulatesFound(15, st, s, v, tok, q, st');
  }

  lemma MeaningOfLiteral(e: Expr, st: State)
    requires e.Lit? && Valid(st)
    ensures MeaningAt(e, st) ==
            if StrLong(e.text).Constant? then Found(StrLong(e.text).value, st.store) else Broken(BadNumber, st.store)
  {
    hide StrLong;
  }

  lemma LiteralParts(e: Expr, st: State, tok: Tok, q: nat)
    requires e.Lit? && Poised(e, PrintBare(e), st, tok, q)
    ensures var p := st.tp + 1 + |e.text|;
            && Valid(st) && p <= |st.text| && NextIs(st.text, p, tok, q)
            && ReadTok(st) == if StrLong(e.text).Constant?
                then Ok(0, Advanced(st, Num, p).(tokval := StrLong(e.text).value))
                              else Fail(BadNumber, st.store)
  {
    hide ReadTok, NextIs, Spaced, IsLiteralText, Holds, StrLong, Ends;
    HoldsBound(st.text, st.tp, Spaced(e.text));
    SpacedLength(e.text);
    NextEnds(st.text, st.tp + 1 + |e.text|, tok, q);
    ReadLiteral(st, e.text);
  }

  lemma LiteralStep(e: Expr, st: State, tok: Tok, q: nat) returns (st': State)
    requires Valid(st) && e.Lit? && Poised(e, PrintBare(e), st, tok, q) && AfterOperand(tok)
    ensures Simulates(15, st, MeaningAt(e, st), tok, q, st') && Starts(st, e)
    ensures MeaningAt(e, st).Found? ==> st'.lasttok == Num
  {
    hide ReadTok, Level, ReadAfter, NextIs, AfterOperand, Simulates, StrLong, Meaning, Poised, PrintBare;
    LiteralParts(e, st, tok, q);
    MeaningOfLiteral(e, st);
    st' := st;
    if ReadTok(st).Ok? {
      var s := ReadTok(st).st;
      PrimaryCases(s);
      st' := PrimaryRead(st, s, s.tokval, s, tok, q);
    } else {
      SimulatesFail(15, st, MeaningAt(e, st), tok, q, st');
    }
  }

  lemma VariableCases(s: State, a: State)
    requires Valid(s) && s.curtok == Str && ReadTok(s.(noeval := 1, tokstr := None)) == Ok(0, a)
    ensures Valid(a)
    ensures a.curtok != PostInc && a.curtok != PostDec ==> Variable(s) == ReadAfter(s.tokval, s)
    ensures a.curtok == PostInc || a.curtok == PostDec ==>
              var back := a.(tokstr := s.tokstr, noeval := s.noeval, lasttok := Str, curtok := Num);
              Variable(s) == ReadAfter(s.tokval,
                  back.(store := BindUnlessSkipped(back, s.tokstr, Stepped(a.curtok, s.tokval))))
  {
    hide ReadTok, ReadAfter, BindUnlessSkipped, Stepped, Left;
  }

  /** exp0 at a variable that no `++` or `--` follows. */
  lemma VariableAt(s: State, tok: Tok, q: nat)
    requires Valid(s) && s.curtok == Str && NextIs(s.text, s.tp, tok, q) && AfterOperand(tok)
    ensures Level(15, s) == ReadAfter(s.tokval, s)
  {
    hide ReadTok, NextIs, Level, ReadAfter, Variable, Readable, AfterOperand;
    PrimaryCases(s);
    ReadableAfter(tok, Str);
    var ahead := s.(noeval := 1, tokstr := None);
    ReadNext(ahead, tok, q);
    VariableCases(s, Advanced(ahead, tok, q));
  }

  /** What reading a name comes to, in terms of the variable's value. */
  lemma ReadValueCases(st: State, name: string, e: nat, tok: Tok)
    requires Valid(st) && e <= |st.text| && (tok != Eq || st.lasttok == PreInc || st.lasttok == PreDec)
    ensures var m := Value(name, st.noeval > 0, st.depth, st.store);
            ReadValue(st, name, e, tok) ==
            if m.Broken? then Fail(m.error, m.store)
            else Ok(0, Advanced(st, Str, e).(tokstr := Some(name), tokval := m.value, store := m.store))
  {
    hide StrEval, Value;
    ValueIsStrEval(name, st.noeval, st.depth, st.store);
  }

  lemma VariableParts(e: Expr, st: State, tok: Tok, q: nat)
    requires e.Var? && Poised(e, PrintBare(e), st, tok, q) && AfterOperand(tok) && tok != Eq
    ensures var m := Value(e.name, st.noeval > 0, st.depth, st.store);
            var p := st.tp + 1 + |e.name|;
            && Valid(st) && p <= |st.text| && NextIs(st.text, p, tok, q)
            && ReadTok(st) == if m.Broken? then Fail(m.error, m.store)
                              else Ok(0, Advanced(st, Str, p).(tokstr := Some(e.name), tokval := m.value,
                                  store := m.store))
  {
    hide ReadTok, NextIs, AfterOperand, Spaced, IsNameText, Holds, Value, ReadValue, Readable;
    SpacedLength(e.name);
    ReadableAfter(tok, Str);
    ReadName(st, e.name, tok, q);
    ReadValueCases(st, e.name, st.tp + 1 + |e.name|, tok);
  }

  lemma VariableStep(e: Expr, st: State, tok: Tok, q: nat) returns (st': State)
    requires Valid(st) && e.Var? && Poised(e, PrintBare(e), st, tok, q) && AfterOperand(tok) && tok != Eq
    ensures Simulates(15, st, MeaningAt(e, st), tok, q, st') && Starts(st, e)
    ensures MeaningAt(e, st).Found? ==> st'.lasttok == Str && st'.tokstr == Some(e.name)
  {
    hide ReadTok, Level, ReadAfter, NextIs, AfterOperand, Simulates, Value, Poised, PrintBare;
    VariableParts(e, st, tok, q);
    st' := st;
    if ReadTok(st).Ok? {
      var s := ReadTok(st).st;
      VariableAt(s, tok, q);
      st' := PrimaryRead(st, s, s.tokval, s, tok, q);
    } else {
      SimulatesFail(15, st, MeaningAt(e, st), tok, q, st');
    }
  }

  lemma BindIsStored(st: State, name: string, v: intmax)
    ensures BindUnlessSkipped(st, Some(name), v) == Stored(st.noeval > 0, st.store, name, v)
  {
  }

  lemma MeaningOfName(e: Expr, st: State)
    requires (e.Var? || e.PreStep? || e.PostStep?) && Valid(st)
    ensures var m := Value(e.name, st.noeval > 0, st.depth, st.store);
            MeaningAt(e, st) ==
            if m.Broken? || e.Var? then m
            else Found(if e.PreStep? then Stepped(e.tok, m.value) else m.value,
                       Stored(st.noeval > 0, m.store, e.name, Stepped(e.tok, m.value)))
  {
    hide Value, Stepped, Stored;
  }

  lemma PostStepParts(e: Expr, st: State, tok: Tok, q: nat)
    requires e.PostStep? && Poised(e, PrintBare(e), st, tok, q)
    ensures var p := st.tp + 4 + |e.name|;
            && Holds(st.text, st.tp, Spaced(e.name)) && NextIs(st.text, st.tp + 1 + |e.name|, e.tok, p)
            && NextIs(st.text, p, tok, q) && Readable(e.tok, Str) && p <= |st.text| && IsNameText(e.name)
            && (e.tok == PostInc || e.tok == PostDec) && Valid(st)
  {
    hide IsNameText, NextIs, Holds, Ends;
    assert PrintBare(e) == Spaced(e.name) + Spaced(OpText(e.tok)) && |OpText(e.tok)| == 2;
    SpacedLength(e.name);
    HoldsParts(st.text, st.tp, Spaced(e.name), Spaced(OpText(e.tok)));
    HoldsBound(st.text, st.tp + 1 + |e.name|, Spaced(OpText(e.tok)));
    NextEnds(st.text, st.tp + 4 + |e.name|, tok, q);
    NextHere(st.text, st.tp + 1 + |e.name|, e.tok);
  }

  /** exp0 at a variable that `++` or `--` follows. */
  lemma PostStepAt(s: State, name: string, post: Tok, p: nat) returns (before: State)
    requires Valid(s) && s.curtok == Str && s.tokstr == Some(name) && (post == PostInc || post == PostDec)
    requires NextIs(s.text, s.tp, post, p) && Readable(post, Str)
    ensures p <= |s.text| && Valid(before) && Level(15, s) == ReadAfter(s.tokval, before)
    ensures before == s.(tp := p, lasttok := Str, curtok := Num,
            store := Stored(s.noeval > 0, s.store, name, Stepped(post, s.tokval)))
  {
    hide ReadTok, Level, ReadAfter, NextIs, Readable, BindUnlessSkipped, Stepped, Stored, Variable;
    PrimaryCases(s);
    var ahead := s.(noeval := 1, tokstr := None);
    ReadNext(ahead, post, p);
    VariableCases(s, Advanced(ahead, post, p));
    BindIsStored(s, name, Stepped(post, s.tokval));
    BindIsStored(s.(tp := p, lasttok := Str, curtok := Num), name, Stepped(post, s.tokval));
    before := s.(tp := p, lasttok := Str, curtok := Num,
        store := BindUnlessSkipped(s, s.tokstr, Stepped(post, s.tokval)));
  }

  /** What reading the name comes to, and then `++` or `--`. */
  lemma PostStepRead(e: Expr, st: State, tok: Tok, q: nat) returns (before: State)
    requires Valid(st) && e.PostStep? && Poised(e, PrintBare(e), st, tok, q)
    ensures var m, p := Value(e.name, st.noeval > 0, st.depth, st.store), st.tp + 4 + |e.name|;
            if m.Broken? then ReadTok(st) == Fail(m.error, m.store)
            else
              && ReadTok(st).Ok? && ReadTok(st).value == 0 && p <= |st.text|
              && var s := ReadTok(st).st;
                 && Valid(s) && Valid(before) && s.curtok == Str && Level(15, s) == ReadAfter(m.value, before)
                 && before.text == st.text && before.depth == st.depth && before.noeval == st.noeval
                 && before.curtok == Num && before.tp == p && NextIs(st.text, p, tok, q)
                 && before.store == Stored(st.noeval > 0, m.store, e.name, Stepped(e.tok, m.value))
  {
    hide ReadTok, Level, ReadAfter, NextIs, Spaced, IsNameText, Holds, Value, ReadValue, Readable, PrintBare, Stepped,
        Stored, Poised;
    PostStepParts(e, st, tok, q);
    var p := st.tp + 4 + |e.name|;
    ReadName(st, e.name, e.tok, p);
    ReadValueCases(st, e.name, st.tp + 1 + |e.name|, e.tok);
    before := st;
    if ReadTok(st).Ok? {
      before := PostStepAt(ReadTok(st).st, e.name, e.tok, p);
    }
  }

  lemma PostStepStep(e: Expr, st: State, tok: Tok, q: nat) returns (st': State)
    requires Valid(st) && e.PostStep? && Poised(e, PrintBare(e), st, tok, q) && AfterOperand(tok)
    ensures Simulates(15, st, MeaningAt(e, st), tok, q, st') && Starts(st, e)
    ensures MeaningAt(e, st).Found? ==> st'.lasttok == Num
  {
    hide ReadTok, Level, ReadAfter, NextIs, AfterOperand, Simulates, Value, PrintBare, Stepped, Stored, MeaningAt,
        Meaning, Poised, Valid;
    var before := PostStepRead(e, st, tok, q);
    MeaningOfName(e, st);
    st' := st;
    if ReadTok(st).Ok? {
      var s := ReadTok(st).st;
      st' := PrimaryRead(st, s, MeaningAt(e, st).value, before, tok, q);
    } else {
      SimulatesFail(15, st, MeaningAt(e, st), tok, q, st');
    }
  }

  lemma PreStepCases(s: State)
    requires Valid(s) && (s.curtok == PreInc || s.curtok == PreDec)
    ensures var r := ReadTok(s.(lasttok := s.curtok));
            && (r.Fail? ==> ArithEval.PreStep(s) == r)
            && (r.Ok? && r.st.curtok == Str ==>
                var v := Stepped(s.curtok, r.st.tokval);
                ArithEval.PreStep(s)
                    == ReadAfter(v, r.st.(curtok := Num, store := BindUnlessSkipped(r.st, r.st.tokstr, v))))
  {
    hide ReadTok, ReadAfter, BindUnlessSkipped, Stepped, Left;
  }

  lemma PreStepParts(e: Expr, st: State, tok: Tok, q: nat)
    requires e.PreStep? && Poised(e, PrintBare(e), st, tok, q)
    ensures Holds(st.text, st.tp, Spaced(OpText(e.tok)) + Spaced(e.name)) && IsNameText(e.name)
    ensures Ends(st.text, st.tp + 4 + |e.name|) && st.tp + 4 + |e.name| <= |st.text|
    ensures NextIs(st.text, st.tp + 4 + |e.name|, tok, q) && (e.tok == PreInc || e.tok == PreDec) && Ready(st)
  {
    hide IsNameText, NextIs;
    HoldsBound(st.text, st.tp, PrintBare(e));
    NextEnds(st.text, st.tp + 4 + |e.name|, tok, q);
  }

  /** exp0 at `++` or `--`. */
  lemma PreStepAt(s: State, name: string, tok: Tok, q: nat) returns (before: State)
    requires Valid(s) && (s.curtok == PreInc || s.curtok == PreDec) && IsNameText(name)
             && Holds(s.text, s.tp, Spaced(name))
    requires NextIs(s.text, s.tp + 1 + |name|, tok, q) && AfterOperand(tok)
    ensures var m := Value(name, s.noeval > 0, s.depth, s.store);
            if m.Broken? then Level(15, s) == Fail(m.error, m.store)
            else
              var v := Stepped(s.curtok, m.value);
              && Valid(before) && Level(15, s) == ReadAfter(v, before)
              && before.text == s.text && before.depth == s.depth && before.noeval == s.noeval && before.curtok == Num
              && before.tp == s.tp + 1 + |name| && before.store == Stored(s.noeval > 0, m.store, name, v)
  {
    hide ReadTok, Level, ReadAfter, NextIs, AfterOperand, Spaced, IsNameText, Holds, Value, ReadValue, Readable;
    hide BindUnlessSkipped, Stepped, Stored, ArithEval.PreStep;
    PrimaryCases(s);
    PreStepCases(s);
    ReadableAfter(tok, Str);
    var s1 := s.(lasttok := s.curtok);
    ReadName(s1, name, tok, q);
    ReadValueCases(s1, name, s1.tp + 1 + |name|, tok);
    var r := ReadTok(s1);
    before := s;
    if r.Ok? {
      BindIsStored(r.st, name, Stepped(s.curtok, r.st.tokval));
      before := r.st.(curtok := Num, store := BindUnlessSkipped(r.st, r.st.tokstr, Stepped(s.curtok, r.st.tokval)));
    }
  }

  lemma PreStepStep(e: Expr, st: State, tok: Tok, q: nat) returns (st': State)
    requires Valid(st) && e.PreStep? && Poised(e, PrintBare(e), st, tok, q) && AfterOperand(tok)
    ensures Simulates(15, st, MeaningAt(e, st), tok, q, st') && Starts(st, e)
    ensures MeaningAt(e, st).Found? ==> st'.lasttok == Num
  {
    hide ReadTok, Level, NextIs, AfterOperand, Simulates, Spaced, IsNameText, Holds, Value, Ready;
    hide PrintBare, Stepped, Stored, MeaningAt, Meaning, OpText, Ends, Poised;
    PreStepParts(e, st, tok, q);
    MeaningOfName(e, st);
    ReadPreStep(st, e.tok, e.name);
    st' := PreStepRead(st, Advanced(st, e.tok, st.tp + 3), e.name, tok, q);
  }

  /** The same once the `++` or `--` has been read, in s. */
  lemma PreStepRead(st: State, s: State, name: string, tok: Tok, q: nat) returns (st': State)
    requires Valid(st) && ReadTok(st) == Ok(0, s) && Valid(s) && (s.curtok == PreInc || s.curtok == PreDec)
    requires s.text == st.text && s.depth == st.depth && s.noeval == st.noeval && s.store == st.store
    requires IsNameText(name) && Holds(s.text, s.tp, Spaced(name)) && NextIs(s.text, s.tp + 1 + |name|, tok, q)
    requires AfterOperand(tok)
    ensures var m := Value(name, st.noeval > 0, st.depth, st.store);
            if m.Broken? then Simulates(15, st, m, tok, q, st')
            else
              var v := Stepped(s.curtok, m.value);
              && Simulates(15, st, Found(v, Stored(st.noeval > 0, m.store, name, v)), tok, q, st')
              && st'.lasttok == Num
  {
    hide ReadTok, Level, ReadAfter, NextIs, AfterOperand, Simulates, Spaced, IsNameText, Holds, Value, Stepped, Stored;
    var before := PreStepAt(s, name, tok, q);
    var m := Value(name, st.noeval > 0, st.depth, st.store);
    if m.Found? {
      st' := PrimaryRead(st, s, Stepped(s.curtok, m.value), before, tok, q);
    } else {
      st' := st;
      SimulatesFail(15, st, m, tok, q, st');
    }
  }

  /** A parenthesized expression, given how its inside is read. */
  lemma ParenStep(st: State, s: State, m: Looked, q1: nat, st1: State, tok: Tok, q: nat) returns (st': State)
    requires Valid(st) && ReadTok(st) == Ok(0, s) && s.curtok == LPar && s.noeval == st.noeval && s.depth == st.depth
    requires s.text == st.text && Simulates(0, s, m, RPar, q1, st1) && NextIs(st.text, q1, tok, q) && AfterOperand(tok)
    ensures Simulates(15, st, m, tok, q, st') && (m.Found? ==> st'.lasttok == RPar)
  {
    hide ReadTok, Level, ReadAfter, NextIs, AfterOperand, Simulates, Run;
    WholeOperand(0, s, m, RPar, q1, st1);
    PrimaryCases(s);
    if m.Found? {
      st' := PrimaryRead(st, s, m.value, st1, tok, q);
    } else {
      st' := st;
      SimulatesFail(15, st, m, tok, q, st');
    }
  }

  lemma UnaryCases(s: State)
    requires Valid(s) && IsUnary(s.curtok)
    ensures var r := Run(14, s);
            && (r.Ok? ==> Valid(r.st))
            && Level(14, s) == if r.Fail? then r else Ok(ArithEval.Unary(s.curtok, r.value), r.st.(lasttok := Num))
  {
    hide ReadTok, Run, ArithEval.Unary, Left;
    OperandIsRun(14, s);
    assert Level(14, s) == Exp1(s);
  }

  /** A unary operator, given how its operand is read. */
  lemma UnaryStep(st: State, s: State, m: Looked, tok: Tok, q: nat, st1: State) returns (st': State)
    requires Valid(st) && ReadTok(st) == Ok(0, s) && IsUnary(s.curtok) && s.noeval == st.noeval && s.depth == st.depth
    requires s.text == st.text && Simulates(14, s, m, tok, q, st1) && InfixLevel(tok) < 14
    ensures Simulates(14, st, if m.Found? then Found(ArithEval.Unary(s.curtok, m.value), m.store) else m, tok, q, st')
    ensures m.Found? ==> st'.lasttok == Num
  {
    hide ReadTok, Level, Simulates, Run, ArithEval.Unary, Rest, IsUnary;
    WholeOperand(14, s, m, tok, q, st1);
    SimulatesValid(14, s, m, tok, q, st1);
    UnaryCases(s);
    if m.Found? {
      st' := st1.(lasttok := Num);
      RestIsTail(14, ArithEval.Unary(s.curtok, m.value), st');
      SimulatesFound(14, st, s, ArithEval.Unary(s.curtok, m.value), tok, q, st');
    } else {
      st' := st;
      SimulatesFail(14, st, m, tok, q, st');
    }
  }

  lemma SimulatesValid(k: nat, st: State, m: Looked, tok: Tok, q: nat, st': State)
    requires Simulates(k, st, m, tok, q, st')
    ensures Valid(st) && k <= 15
  {
  }

  // ---------- the conditional operator ----------

  lemma CondCases(v: intmax, st: State)
    requires Valid(st) && st.curtok == Ques
    ensures var inner := st.(noeval := if v == 0 then st.noeval + 1 else st.noeval);
            var r := Run(0, inner);
            && (r.Ok? ==> Valid(r.st))
            && (ReadTok(inner).Ok? ==> ReadTok(inner).st.curtok != End && ReadTok(inner).st.curtok != Col) ==>
                 Tail(2, v, st) ==
                 if r.Fail? then r else if r.st.curtok != Col then Fail(ColonExpected, r.st.store)
                 else CondElse(v, r.value, r.st.(noeval := st.noeval))
  {
    hide ReadTok, CondElse, Left;
    assert Tail(2, v, st) == TailCond(v, st);
  }

  lemma ElseCases(v: intmax, v1: intmax, st: State)
    requires Valid(st) && st.curtok == Col
    ensures var inner := st.(noeval := if v != 0 then st.noeval + 1 else st.noeval);
            var r := Run(2, inner);
            && (r.Ok? ==> Valid(r.st))
            && (ReadTok(inner).Ok? ==> ReadTok(inner).st.curtok != End) ==>
                 CondElse(v, v1, st) ==
                 if r.Fail? then r else Ok(if v != 0 then v1 else r.value, r.st.(noeval := st.noeval, lasttok := Cond))
  {
    hide ReadTok, Left;
  }

  /** The state in which the first operand of `?:` is read, and the one for the second. */
  function ThenState(v: intmax, st: State): State {
    st.(noeval := if v == 0 then st.noeval + 1 else st.noeval)
  }

  function ElseState(v: intmax, noeval: nat, st: State): State {
    st.(noeval := if v != 0 then noeval + 1 else noeval)
  }

  function TernaryMeaning(v: intmax, m1: Looked, m2: Looked): Looked {
    if m1.Broken? then m1 else if m2.Broken? then m2 else Found(if v != 0 then m1.value else m2.value, m2.store)
  }

  lemma ElseStep(v: intmax, v1: intmax, mid: State, m2: Looked, tok: Tok, q: nat, st2: State) returns (st': State)
    requires Valid(mid) && mid.curtok == Col && InfixLevel(tok) < 2
    requires Simulates(2, ElseState(v, mid.noeval, mid), m2, tok, q, st2)
    requires ReadTok(ElseState(v, mid.noeval, mid)).Ok? ==> ReadTok(ElseState(v, mid.noeval, mid)).st.curtok != End
    ensures if m2.Broken? then CondElse(v, v1, mid) == Fail(m2.error, m2.store)
            else
              && Valid(st') && After(mid, m2.store, tok, q, st')
              && CondElse(v, v1, mid) == Ok(if v != 0 then v1 else m2.value, st') && st'.lasttok == Cond
  {
    hide ReadTok, Run, CondElse, Simulates;
    WholeOperand(2, ElseState(v, mid.noeval, mid), m2, tok, q, st2);
    ElseCases(v, v1, mid);
    st' := st2.(noeval := mid.noeval, lasttok := Cond);
  }

  /** The tail of expcond at a `?`, given how both operands are read. */
  lemma TernaryStep(v: intmax, st: State, m1: Looked, q1: nat, st1: State, m2: Looked, tok: Tok, q: nat,
        st2: State) returns (st': State)
    requires Valid(st) && st.curtok == Ques && InfixLevel(tok) < 2
    requires Simulates(0, ThenState(v, st), m1, Col, q1, st1)
    requires ReadTok(ThenState(v, st)).Ok?
             ==> ReadTok(ThenState(v, st)).st.curtok != End && ReadTok(ThenState(v, st)).st.curtok != Col
    requires m1.Found? ==> Simulates(2, ElseState(v, st.noeval, st1), m2, tok, q, st2)
    requires m1.Found? && ReadTok(ElseState(v, st.noeval, st1)).Ok?
             ==> ReadTok(ElseState(v, st.noeval, st1)).st.curtok != End
    ensures Steps(2, v, st, TernaryMeaning(v, m1, m2), tok, q, st')
    ensures TernaryMeaning(v, m1, m2).Found? ==> st'.lasttok == Cond
  {
    hide ReadTok, Run, CondElse, Simulates, Tail, Steps;
    WholeOperand(0, ThenState(v, st), m1, Col, q1, st1);
    CondCases(v, st);
    st' := st;
    if m1.Broken? {
      StepsFail(2, v, st, m1, tok, q, st');
    } else {
      var mid := st1.(noeval := st.noeval);
      assert ElseState(v, mid.noeval, mid) == ElseState(v, st.noeval, st1);
      assert Tail(2, v, st) == CondElse(v, m1.value, mid);
      var st3 := ElseStep(v, m1.value, mid, m2, tok, q, st2);
      if m2.Broken? {
        StepsFail(2, v, st, m2, tok, q, st');
      } else {
        st' := st3;
        AfterMid(st, mid, m2.store, tok, q, st3);
        StepsDone(2, v, st, if v != 0 then m1.value else m2.value, tok, q, st');
      }
    }
  }

  lemma AfterMid(st: State, mid: State, store: Store, tok: Tok, q: nat, st': State)
    requires After(mid, store, tok, q, st') && mid.text == st.text && mid.depth == st.depth && mid.noeval == st.noeval
    ensures After(st, st'.store, tok, q, st') && st'.store == store
  {
  }

  // ---------- assignment ----------

  lemma AssignCases(v: intmax, st: State, name: string)
    requires Valid(st) && (st.curtok == Eq || st.curtok.OpAssign?) && st.lasttok == Str && st.tokstr == Some(name)
    ensures var r := Run(1, st);
            && (r.Ok? ==> Valid(r.st) && r.st.noeval == st.noeval)
            && Tail(1, v, st) ==
               if r.Fail? then r
               else
                 var a := Assigned(st.curtok, if st.noeval > 0 then 1 else 0, v, r.value);
                 if a.None? then Fail(DivisionByZero, r.st.store)
                 else Ok(a.value, r.st.(tokstr := None, store := Stored(st.noeval > 0, r.st.store, name, a.value)))
  {
    hide ReadTok, Level, Run, Apply, Left;
    OperandIsRun(1, st);
    assert Tail(1, v, st) == TailAssign(v, st);
  }

  function AssignMeaning(tok: Tok, name: string, skip: bool, v: intmax, m: Looked): Looked {
    if m.Broken? then m
    else
      var a := Assigned(tok, if skip then 1 else 0, v, m.value);
      if a.None? then Broken(DivisionByZero, m.store) else Found(a.value, Stored(skip, m.store, name, a.value))
  }

  /** The tail of expassign at an assignment to name, given how the right side is read. */
  lemma AssignStep(v: intmax, st: State, name: string, m: Looked, tok: Tok, q: nat, st1: State) returns (st': State)
    requires Valid(st) && (st.curtok == Eq || st.curtok.OpAssign?) && st.lasttok == Str && st.tokstr == Some(name)
    requires Simulates(1, st, m, tok, q, st1) && InfixLevel(tok) < 1
    ensures Steps(1, v, st, AssignMeaning(st.curtok, name, st.noeval > 0, v, m), tok, q, st')
  {
    hide Run, Tail, Assigned, Stored, Simulates, Steps;
    WholeOperand(1, st, m, tok, q, st1);
    AssignCases(v, st, name);
    var m' := AssignMeaning(st.curtok, name, st.noeval > 0, v, m);
    if m'.Found? {
      st' := st1.(tokstr := None, store := m'.store);
      StepsDone(1, v, st, m'.value, tok, q, st');
    } else {
      st' := st;
      StepsFail(1, v, st, m', tok, q, st');
    }
  }

  /** The left side of an assignment: only `=` leaves its variable unread. */
  function TargetMeaning(tok: Tok, name: string, skip: bool, depth: nat, store: Store): Looked
    requires depth <= MAX_EXPR_RECURSION_LEVEL
  {
    if tok == Eq then Found(0, store) else Value(name, skip, depth, store)
  }

  lemma TargetValue(st: State, name: string, e: nat, tok: Tok)
    requires Ready(st) && e <= |st.text|
    ensures var m := TargetMeaning(tok, name, st.noeval > 0, st.depth, st.store);
            ReadValue(st, name, e, tok) ==
            if m.Broken? then Fail(m.error, m.store)
            else Ok(0, Advanced(st, Str, e).(tokstr := Some(name), tokval := m.value, store := m.store))
  {
    hide StrEval, Value;
    if tok != Eq {
      ReadValueCases(st, name, e, tok);
    }
  }

  /** exp0 at the name of a variable that is assigned to. */
  lemma TargetRead(st: State, name: string, tok: Tok, q: nat) returns (st': State)
    requires Ready(st) && IsNameText(name) && Holds(st.text, st.tp, Spaced(name))
    requires NextIs(st.text, st.tp + 1 + |name|, tok, q) && Assignable(tok)
    ensures var m := TargetMeaning(tok, name, st.noeval > 0, st.depth, st.store);
            && Simulates(15, st, m, tok, q, st')
            && (m.Found? ==> st'.lasttok == Str && st'.tokstr == Some(name) && st'.curtok == tok)
    ensures ReadTok(st).Ok? ==> ReadTok(st).st.curtok == Str
  {
    hide ReadTok, Level, ReadAfter, NextIs, Simulates, IsNameText, Holds, ReadValue, TargetMeaning, Spaced, Readable,
        Rest;
    AssignableFacts(tok);
    ReadName(st, name, tok, q);
    TargetValue(st, name, st.tp + 1 + |name|, tok);
    var m := TargetMeaning(tok, name, st.noeval > 0, st.depth, st.store);
    if m.Found? {
      var s := ReadTok(st).st;
      VariableAt(s, tok, q);
      ReadAfterNext(m.value, s, tok, q);
      st' := Advanced(s, tok, q);
      RestIsTail(15, m.value, st');
      SimulatesFound(15, st, s, m.value, tok, q, st');
    } else {
      st' := st;
      SimulatesFail(15, st, m, tok, q, st');
    }
  }

  lemma TargetStep(st: State, name: string, tok: Tok, q: nat) returns (st': State)
    requires Ready(st) && IsNameText(name) && Holds(st.text, st.tp, Spaced(name))
    requires NextIs(st.text, st.tp + 1 + |name|, tok, q) && Assignable(tok)
    ensures var m := TargetMeaning(tok, name, st.noeval > 0, st.depth, st.store);
            && Simulates(1, st, m, tok, q, st')
            && (m.Found? ==> st'.lasttok == Str && st'.tokstr == Some(name) && st'.curtok == tok)
    ensures ReadTok(st).Ok? ==> ReadTok(st).st.curtok == Str
  {
    hide ReadTok, NextIs, Simulates, IsNameText, Holds, TargetMeaning, Spaced;
    AssignableFacts(tok);
    st' := TargetRead(st, name, tok, q);
    Descend(15, 1, st, TargetMeaning(tok, name, st.noeval > 0, st.depth, st.store), tok, q, st');
  }

  lemma UnreadParts(e: Expr, st: State, q: nat)
    requires e.Unread? && Poised(e, PrintBare(e), st, Eq, q)
    ensures Ready(st) && Valid(st) && IsNameText(e.name) && Holds(st.text, st.tp, Spaced(e.name))
    ensures NextIs(st.text, st.tp + 1 + |e.name|, Eq, q)
    ensures MeaningAt(e, st) == TargetMeaning(Eq, e.name, st.noeval > 0, st.depth, st.store)
  {
    hide IsNameText, Holds, NextIs;
  }

  /** A variable that `=` follows. */
  lemma UnreadStep(e: Expr, st: State, q: nat) returns (st': State)
    requires Valid(st) && e.Unread? && Poised(e, PrintBare(e), st, Eq, q)
    ensures Simulates(15, st, MeaningAt(e, st), Eq, q, st') && Starts(st, e)
    ensures MeaningAt(e, st).Found? ==> st'.lasttok == Str && st'.tokstr == Some(e.name)
  {
    hide ReadTok, NextIs, Simulates, IsNameText, Holds, TargetMeaning, Spaced, Poised, PrintBare, MeaningAt, Ready,
        Valid;
    UnreadParts(e, st, q);
    st' := TargetRead(st, e.name, Eq, q);
  }

  lemma AssignableFacts(tok: Tok)
    requires Assignable(tok)
    ensures Readable(tok, Str) && AfterOperand(tok) && InfixLevel(tok) == 1 && tok != End
    ensures tok == Eq || tok.OpAssign?
  {
  }

  // ---------- where the parts of an expression are ----------

  lemma InfixLeft(e: Expr, st: State, tok: Tok, q: nat) returns (q1: nat)
    requires IsInfix(e) && Poised(e, PrintBare(e), st, tok, q) && Follows(e, LevelOf(e), tok)
    ensures Poised(e.l, Print(e.l, LeftLevel(e)), st, OpOf(e), q1) && Follows(e.l, LeftLevel(e), OpOf(e))
    ensures Holds(st.text, q1, Print(e.r, RightLevel(e))) && NextIs(st.text, q1 + |Print(e.r, RightLevel(e))|, tok, q)
    ensures Formed(e.r) && Follows(e.r, RightLevel(e), tok) && Valid(st)
  {
    hide Holds, NextIs, Print, PrintBare, Spaced, OpText, Formed, AfterOperand, Ready, LeftLevel, RightLevel;
    InfixFacts(e);
    InfixText(e);
    PrintNotEmpty(e.r, RightLevel(e));
    SplitInfix(st.text, st.tp, Print(e.l, LeftLevel(e)), OpOf(e), Print(e.r, RightLevel(e)));
    q1 := st.tp + |Print(e.l, LeftLevel(e))| + 1 + |OpText(OpOf(e))|;
    InfixFollows(e, tok);
    ReadyIsValid(st);
  }

  lemma InfixPlaced(e: Expr, tok: Tok)
    requires IsInfix(e) && Placed(e, LevelOf(e), tok)
    ensures Placed(e.l, LeftLevel(e), OpOf(e)) && Placed(e.r, RightLevel(e), tok)
  {
    assert PlacedBare(e, tok);
  }

  /** What is placed right in an expression that is not in parentheses. */
  lemma PlacedParts(e: Expr, tok: Tok)
    requires Placed(e, LevelOf(e), tok)
    ensures PlacedBare(e, tok)
    ensures e.Var? ==> tok != Eq
    ensures e.Unread? ==> tok == Eq
    ensures e.Paren? ==> Placed(e.e, 0, RPar)
    ensures e.Unary? ==> Placed(e.e, 14, tok)
    ensures e.Ternary? ==> Placed(e.c, 3, Ques) && Placed(e.t, 0, Col) && Placed(e.f, 2, tok)
    ensures e.Assign? ==> Placed(e.e, 1, tok)
  {
    assert PlacedBare(e, tok);
  }

  lemma InfixFollows(e: Expr, tok: Tok)
    requires IsInfix(e) && Formed(e) && Follows(e, LevelOf(e), tok)
    ensures Follows(e.l, LeftLevel(e), OpOf(e)) && Follows(e.r, RightLevel(e), tok)
  {
    hide AfterOperand;
    InfixFacts(e);
    InfixPlaced(e, tok);
    hide Placed;
  }

  lemma ReadyIsValid(st: State)
    requires Ready(st)
    ensures Valid(st)
  {
  }

  /** After a left operand, the right one is ready to be read. */
  lemma AfterIsReady(st: State, store: Store, op: Tok, q1: nat, st1: State, noeval: nat)
    requires Valid(st1) && After(st, store, op, q1, st1) && op !in {Str, Num, PreInc, PreDec}
    ensures Ready(st1.(noeval := noeval)) && st1.text == st.text && st1.tp == q1 && st1.noeval == st.noeval
    ensures st1.depth == st.depth && st1.store == store && st1.curtok == op
  {
  }

  lemma InfixIsNoOperand(e: Expr)
    requires IsInfix(e) && Formed(e)
    ensures OpOf(e) !in {Str, Num, PreInc, PreDec}
  {
  }

  /** e is `l % name`, and the remainder is the one of INTMAX_MIN and -1. */
  predicate EarlyRemainder(e: Expr, skip: bool, depth: nat, store: Store): (b: bool)
    requires depth <= MAX_EXPR_RECURSION_LEVEL
    ensures b ==> e.Binary? && e.r.Var?
  {
    && e.Binary? && e.tok == Mod && e.r.Var?
    && var m := Meaning(e.l, skip, depth, store);
       && m.Found? && m.value == INTMAX_MIN
       && var n := Value(e.r.name, skip, depth, m.store); n.Found? && n.value == -1
  }

  /** The last token after an operand of level k, other than an assignment or a sequence: it is a name only after a
      variable, and after that remainder. */
  predicate Leaves(e: Expr, k: nat, st: State, st': State)
    requires Valid(st)
  {
    if LevelOf(e) < k then st'.lasttok != Str
    else LevelOf(e) >= 2 ==>
      && (st'.lasttok == Str <==> e.Var? || e.Unread? || EarlyRemainder(e, st.noeval > 0, st.depth, st.store))
      && (st'.lasttok == Str ==> st'.tokstr == Some(if e.Var? || e.Unread? then e.name else e.r.name))
  }

  /** What the right operand of an infix expression leaves is what the expression leaves. */
  lemma LeavesInfix(e: Expr, st: State, m: Looked, inner: State, n: Looked, st1: State, st2: State)
    requires IsInfix(e) && Formed(e) && Valid(st) && Valid(inner) && m == MeaningAt(e.l, st) && m.Found?
    requires n == MeaningAt(e.r, inner) && n.Found? && Leaves(e.r, RightLevel(e), inner, st1)
    requires inner.depth == st.depth && inner.store == m.store && inner.noeval == RightNoeval(e, m.value, st.noeval)
    requires InfixLeaves(e, m.value, n, st1, st2)
    ensures Leaves(e, LevelOf(e), st, st2)
  {
    hide Meaning, Value, Valid;
    if e.Binary? && e.tok == Mod {
      LeavesRemainder(e.r, inner);
    }
  }

  lemma LeavesRemainder(e: Expr, st: State)
    requires Valid(st)
    ensures LevelOf(e) >= 13 ==> !EarlyRemainder(e, st.noeval > 0, st.depth, st.store)
    ensures e.Unread? ==> MeaningAt(e, st) == Found(0, st.store)
    ensures e.Var? ==> LevelOf(e) == 15 && MeaningAt(e, st) == Value(e.name, st.noeval > 0, st.depth, st.store)
  {
    hide Value;
  }

  lemma LeavesNoName(e: Expr, k: nat, st: State, st': State)
    requires Valid(st) && st'.lasttok != Str && !e.Var? && !e.Unread? && !e.Binary?
    ensures Leaves(e, k, st, st')
  {
  }

  lemma LeavesName(e: Expr, k: nat, st: State, st': State)
    requires Valid(st) && (e.Var? || e.Unread?) && k <= 15 && st'.lasttok == Str && st'.tokstr == Some(e.name)
    ensures Leaves(e, k, st, st')
  {
  }

  lemma LeavesParens(e: Expr, k: nat, st: State, st': State)
    requires Valid(st) && LevelOf(e) < k && st'.lasttok != Str
    ensures Leaves(e, k, st, st')
  {
  }

  lemma LeavesLooser(e: Expr, k: nat, st: State, st': State)
    requires Valid(st) && k <= LevelOf(e) && Leaves(e, LevelOf(e), st, st')
    ensures Leaves(e, k, st, st')
  {
  }

  lemma {:induction false} SimulateInfix(e: Expr, st: State, tok: Tok, q: nat) returns (st': State)
    requires IsInfix(e) && Poised(e, PrintBare(e), st, tok, q) && Follows(e, LevelOf(e), tok)
    ensures Simulates(LevelOf(e), st, MeaningAt(e, st), tok, q, st') && Starts(st, e)
    ensures MeaningAt(e, st).Found? ==> Leaves(e, LevelOf(e), st, st')
    decreases e, 0
  {
    hide Holds, NextIs, Print, PrintBare, AfterOperand, Ready, LeftLevel, RightLevel, Simulates, Steps, InfixMeaning,
        Meaning, RightNoeval;
    hide ReadTok, After, Valid, StartTok, Formed, Follows, Leaves, InfixLeaves;
    var op := OpOf(e);
    var q1 := InfixLeft(e, st, tok, q);
    InfixFacts(e);
    InfixIsNoOperand(e);
    MeaningOfInfixAt(e, st);
    var m1 := MeaningAt(e.l, st);
    var st1 := Simulate(e.l, LeftLevel(e), st, op, q1);
    Descend(LeftLevel(e), LevelOf(e), st, m1, op, q1, st1);
    st' := st1;
    if m1.Found? {
      FoundFacts(LevelOf(e), st, m1, op, q1, st1);
      var noeval := RightNoeval(e, m1.value, st1.noeval);
      AfterIsReady(st, m1.store, op, q1, st1, noeval);
      SameNoeval(st1);
      RightNoevalSkips(e, m1.value, st.noeval);
      var inner := st1.(noeval := noeval);
      var st2 := Simulate(e.r, RightLevel(e), inner, tok, q);
      st' := InfixStep(e, m1.value, st1, MeaningAt(e.r, inner), tok, q, st2);
      if MeaningAt(e, st).Found? {
        if MeaningAt(e.r, inner).Broken? {
          BrokenRight(e, st.noeval > 0, m1.value, MeaningAt(e.r, inner));
        }
        LeavesInfix(e, st, m1, inner, MeaningAt(e.r, inner), st2, st');
      }
    }
    Chain(LevelOf(e), st, m1, op, q1, st1, MeaningAt(e, st), tok, q, st');
    StartsLeft(st, e);
  }

  lemma BrokenRight(e: Expr, skip: bool, v: intmax, m: Looked)
    requires IsInfix(e) && m.Broken?
    ensures InfixMeaning(e, skip, v, m).Broken?
  {
  }

  lemma MeaningOfInfixAt(e: Expr, st: State)
    requires IsInfix(e) && Valid(st)
    ensures var m := MeaningAt(e.l, st);
            MeaningAt(e, st) ==
            if m.Broken? then m
            else InfixMeaning(e, st.noeval > 0, m.value,
                              Meaning(e.r, st.noeval > 0 || RightNoeval(e, m.value, 0) > 0, st.depth, m.store))
  {
    hide Meaning, InfixMeaning, RightNoeval;
    MeaningOfInfix(e, st.noeval > 0, st.depth, st.store);
  }

  lemma RightNoevalSkips(e: Expr, v: intmax, noeval: nat)
    ensures RightNoeval(e, v, noeval) > 0 <==> noeval > 0 || RightNoeval(e, v, 0) > 0
  {
  }

  /** An operator expression starts as its left operand does. */
  lemma StartsLeft(st: State, e: Expr)
    requires IsInfix(e) && Formed(e) && Starts(st, e.l)
    ensures Starts(st, e)
  {
    hide ReadTok, Formed;
    InfixFacts(e);
  }

  lemma {:induction false} SimulateUnary(e: Expr, st: State, tok: Tok, q: nat) returns (st': State)
    requires e.Unary? && Poised(e, PrintBare(e), st, tok, q) && AfterOperand(tok) && InfixLevel(tok) < 14
    requires Placed(e, LevelOf(e), tok)
    ensures Simulates(14, st, MeaningAt(e, st), tok, q, st') && Starts(st, e)
    ensures MeaningAt(e, st).Found? ==> st'.lasttok == Num
    decreases e, 0
  {
    hide Holds, NextIs, Print, PrintBare, AfterOperand, Simulates, Meaning, ReadTok, Spaced, OpText, Readable,
        ArithEval.Unary;
    var q1 := UnaryParts(e, st, tok, q);
    ReadNext(st, e.tok, q1);
    var s := Advanced(st, e.tok, q1);
    MeaningOfUnary(e, st);
    var st1 := Simulate(e.e, 14, s, tok, q);
    st' := UnaryStep(st, s, MeaningAt(e.e, s), tok, q, st1);
  }

  lemma UnaryParts(e: Expr, st: State, tok: Tok, q: nat) returns (q1: nat)
    requires e.Unary? && Poised(e, PrintBare(e), st, tok, q) && AfterOperand(tok) && InfixLevel(tok) < 14
    requires Placed(e, LevelOf(e), tok)
    ensures q1 <= |st.text| && NextIs(st.text, st.tp, e.tok, q1) && Readable(e.tok, st.curtok)
    ensures Poised(e.e, Print(e.e, 14), Advanced(st, e.tok, q1), tok, q) && Follows(e.e, 14, tok)
    ensures e.tok != End && e.tok != Col && IsUnary(e.tok)
  {
    hide Print, OpText, NextIs, Holds, Spaced, AfterOperand;
    PlacedParts(e, tok);
    hide Placed;
    PrintNotEmpty(e.e, 14);
    SplitPrefix(st.text, st.tp, e.tok, Print(e.e, 14));
    q1 := st.tp + 1 + |OpText(e.tok)|;
    HoldsBound(st.text, q1, Print(e.e, 14));
  }

  lemma MeaningOfUnary(e: Expr, st: State)
    requires e.Unary? && Valid(st)
    ensures var m := MeaningAt(e.e, st);
            MeaningAt(e, st) == if m.Broken? then m else Found(ArithEval.Unary(e.tok, m.value), m.store)
  {
    hide ArithEval.Unary;
  }

  lemma {:induction false} SimulateParens(e: Expr, st: State, tok: Tok, q: nat) returns (st': State)
    requires Poised(e, Spaced("(") + Print(e, 0) + Spaced(")"), st, tok, q) && AfterOperand(tok)
    requires Placed(e, 0, RPar)
    ensures Simulates(15, st, MeaningAt(e, st), tok, q, st')
    ensures MeaningAt(e, st).Found? ==> st'.lasttok == RPar
    ensures ReadTok(st).Ok? ==> ReadTok(st).st.curtok == LPar
    decreases e, 5
  {
    hide Holds, NextIs, Print, AfterOperand, Simulates, Meaning, ReadTok, Spaced, OpText, Readable, Formed, Follows;
    PrintNotEmpty(e, 0);
    SplitParens(st.text, st.tp, Print(e, 0), tok, q);
    ClosersFollow(e, RPar);
    ParenIsReadable(st.curtok);
    ReadNext(st, LPar, st.tp + 2);
    var s := Advanced(st, LPar, st.tp + 2);
    var q1 := s.tp + |Print(e, 0)| + 2;
    var st1 := Simulate(e, 0, s, RPar, q1);
    st' := ParenStep(st, s, MeaningAt(e, s), q1, st1, tok, q);
  }

  lemma ClosersFollow(e: Expr, tok: Tok)
    requires tok in {Col, RPar, End} && Placed(e, 0, tok)
    ensures Follows(e, 0, tok)
  {
    hide Placed;
  }

  lemma ParenIsReadable(curtok: Tok)
    ensures Readable(LPar, curtok)
  {
  }

  lemma TernaryFollows(e: Expr, tok: Tok)
    requires e.Ternary? && Follows(e, 2, tok)
    ensures Follows(e.c, 3, Ques) && Follows(e.t, 0, Col) && Follows(e.f, 2, tok) && InfixLevel(tok) < 2
  {
    PlacedParts(e, tok);
    hide Placed;
  }

  lemma TernaryFormed(e: Expr)
    requires e.Ternary? && Formed(e)
    ensures Formed(e.c) && Formed(e.t) && Formed(e.f)
  {
  }

  lemma TernaryParts(e: Expr, st: State, tok: Tok, q: nat) returns (q1: nat, q2: nat)
    requires e.Ternary? && Poised(e, PrintBare(e), st, tok, q) && Follows(e, 2, tok)
    ensures Poised(e.c, Print(e.c, 3), st, Ques, q1) && Follows(e.c, 3, Ques)
    ensures Holds(st.text, q1, Print(e.t, 0)) && NextIs(st.text, q1 + |Print(e.t, 0)|, Col, q2) && Follows(e.t, 0, Col)
    ensures Holds(st.text, q2, Print(e.f, 2)) && NextIs(st.text, q2 + |Print(e.f, 2)|, tok, q) && Follows(e.f, 2, tok)
    ensures Formed(e.c) && Formed(e.t) && Formed(e.f) && Valid(st) && InfixLevel(tok) < 2
  {
    hide OpText, Print, PrintBare, Spaced, Holds, NextIs, Follows, Formed, Ready;
    TernaryFollows(e, tok);
    TernaryFormed(e);
    ReadyIsValid(st);
    q1, q2 := SplitTernary(e, st.text, st.tp);
  }

  lemma SplitTernary(e: Expr, text: string, p: nat) returns (q1: nat, q2: nat)
    requires e.Ternary? && Holds(text, p, PrintBare(e))
    ensures Holds(text, p, Print(e.c, 3)) && NextIs(text, p + |Print(e.c, 3)|, Ques, q1)
    ensures Holds(text, q1, Print(e.t, 0)) && NextIs(text, q1 + |Print(e.t, 0)|, Col, q2)
    ensures Holds(text, q2, Print(e.f, 2)) && q2 + |Print(e.f, 2)| == p + |PrintBare(e)|
  {
    hide OpText, Print, PrintBare, Spaced, Holds, NextIs;
    PrintNotEmpty(e.t, 0);
    PrintNotEmpty(e.f, 2);
    TernaryText(e);
    var a, b, c := Print(e.c, 3), Print(e.t, 0), Print(e.f, 2);
    SplitInfix(text, p, a + Spaced(OpText(Ques)) + b, Col, c);
    SplitInfix(text, p, a, Ques, b);
    q1 := p + |a| + 1 + |OpText(Ques)|;
    q2 := q1 + |b| + 1 + |OpText(Col)|;
  }

  lemma TernaryText(e: Expr)
    requires e.Ternary?
    ensures PrintBare(e) == (Print(e.c, 3) + Spaced(OpText(Ques)) + Print(e.t, 0)) + Spaced(OpText(Col)) + Print(e.f, 2)
  {
    hide Spaced;
    OperatorTexts();
    hide OpText;
  }

  lemma MeaningOfTernary(e: Expr, st: State)
    requires e.Ternary? && Valid(st)
    ensures var m := MeaningAt(e.c, st);
            MeaningAt(e, st) ==
            if m.Broken? then m
            else var m1 := Meaning(e.t, st.noeval > 0 || m.value == 0, st.depth, m.store);
                 if m1.Broken? then m1
                 else TernaryMeaning(m.value, m1, Meaning(e.f, st.noeval > 0 || m.value != 0, st.depth, m1.store))
  {
  }

  lemma {:induction false} SimulateTernary(e: Expr, st: State, tok: Tok, q: nat) returns (st': State)
    requires e.Ternary? && Poised(e, PrintBare(e), st, tok, q) && Follows(e, 2, tok)
    ensures Simulates(2, st, MeaningAt(e, st), tok, q, st') && Starts(st, e)
    ensures MeaningAt(e, st).Found? ==> st'.lasttok == Cond
    decreases e, 2
  {
    hide Holds, NextIs, Print, PrintBare, Simulates, Steps, Meaning, ReadTok, Formed, Follows, Ready, After, Valid;
    var q1, q2 := TernaryParts(e, st, tok, q);
    MeaningOfTernary(e, st);
    var m := MeaningAt(e.c, st);
    var st1 := Simulate(e.c, 3, st, Ques, q1);
    DescendOne(3, st, m, Ques, q1, st1);
    st' := st1;
    if m.Found? {
      FoundFacts(2, st, m, Ques, q1, st1);
      AfterIsReady(st, m.store, Ques, q1, st1, st1.noeval);
      SameNoeval(st1);
      ReadyIsValid(st1);
      st' := SimulateBranches(e, m.value, st1, q2, tok, q);
    }
    Chain(2, st, m, Ques, q1, st1, MeaningAt(e, st), tok, q, st');
  }

  lemma {:induction false} SimulateThen(e: Expr, v: intmax, st: State, q2: nat) returns (st1: State)
    requires e.Ternary? && Ready(st) && Formed(e.t) && Follows(e.t, 0, Col)
    requires Holds(st.text, st.tp, Print(e.t, 0)) && NextIs(st.text, st.tp + |Print(e.t, 0)|, Col, q2)
    ensures Simulates(0, ThenState(v, st), Meaning(e.t, st.noeval > 0 || v == 0, st.depth, st.store), Col, q2, st1)
    ensures Starts(ThenState(v, st), e.t)
    decreases e, 0
  {
    hide Holds, NextIs, Print, Simulates, Meaning, ReadTok, Formed, Follows, Ready, StartTok, Leaves;
    var inner := ThenState(v, st);
    ReadyAnyNoeval(st, inner.noeval);
    st1 := Simulate(e.t, 0, inner, Col, q2);
  }

  lemma {:induction false} SimulateElse(e: Expr, v: intmax, st: State, m1: Looked, st1: State, q2: nat, tok: Tok,
        q: nat) returns (st2: State)
    requires e.Ternary? && Valid(st) && Formed(e.f) && Follows(e.f, 2, tok) && m1.Found?
    requires Simulates(0, ThenState(v, st), m1, Col, q2, st1)
    requires Holds(st.text, q2, Print(e.f, 2)) && NextIs(st.text, q2 + |Print(e.f, 2)|, tok, q)
    ensures var inner := ElseState(v, st.noeval, st1);
            Simulates(2, inner, Meaning(e.f, st.noeval > 0 || v != 0, st.depth, m1.store), tok, q, st2)
                && Starts(inner, e.f)
    decreases e, 0
  {
    hide Holds, NextIs, Print, Simulates, Meaning, ReadTok, Formed, Follows, Ready, StartTok, Leaves, After;
    FoundFacts(0, ThenState(v, st), m1, Col, q2, st1);
    AfterIsReady(ThenState(v, st), m1.store, Col, q2, st1, if v != 0 then st.noeval + 1 else st.noeval);
    var inner := ElseState(v, st.noeval, st1);
    ReadyIsValid(inner);
    st2 := Simulate(e.f, 2, inner, tok, q);
  }

  /** The operands of `?:` after its condition v. */
  lemma {:induction false} SimulateBranches(e: Expr, v: intmax, st: State, q2: nat, tok: Tok,
        q: nat) returns (st': State)
    requires e.Ternary? && Ready(st) && Valid(st) && st.curtok == Ques
    requires Holds(st.text, st.tp, Print(e.t, 0)) && NextIs(st.text, st.tp + |Print(e.t, 0)|, Col, q2)
             && Follows(e.t, 0, Col)
    requires Holds(st.text, q2, Print(e.f, 2)) && NextIs(st.text, q2 + |Print(e.f, 2)|, tok, q) && Follows(e.f, 2, tok)
    requires Formed(e.t) && Formed(e.f) && InfixLevel(tok) < 2
    ensures var m1 := Meaning(e.t, st.noeval > 0 || v == 0, st.depth, st.store);
            var m := if m1.Broken? then m1
                else TernaryMeaning(v, m1, Meaning(e.f, st.noeval > 0 || v != 0, st.depth, m1.store));
            Steps(2, v, st, m, tok, q, st') && (m.Found? ==> st'.lasttok == Cond)
    decreases e, 1
  {
    hide Holds, NextIs, Print, Simulates, Steps, Meaning, ReadTok, Formed, Follows, Ready, After, ThenState,
        ElseState, Leaves;
    var st1 := SimulateThen(e, v, st, q2);
    var m1 := Meaning(e.t, st.noeval > 0 || v == 0, st.depth, st.store);
    var st2, m2 := st1, m1;
    if m1.Found? {
      st2 := SimulateElse(e, v, st, m1, st1, q2, tok, q);
      m2 := Meaning(e.f, st.noeval > 0 || v != 0, st.depth, m1.store);
    }
    st' := TernaryStep(v, st, m1, q2, st1, m2, tok, q, st2);
  }

  lemma ReadyAnyNoeval(st: State, noeval: nat)
    requires Ready(st)
    ensures Ready(st.(noeval := noeval)) && Valid(st.(noeval := noeval))
  {
  }

  lemma AssignParts(e: Expr, st: State, tok: Tok, q: nat) returns (q1: nat)
    requires e.Assign? && Poised(e, PrintBare(e), st, tok, q) && Follows(e, 1, tok)
    ensures Holds(st.text, st.tp, Spaced(e.name)) && NextIs(st.text, st.tp + 1 + |e.name|, e.tok, q1)
            && IsNameText(e.name)
    ensures Holds(st.text, q1, Print(e.e, 1)) && NextIs(st.text, q1 + |Print(e.e, 1)|, tok, q) && Follows(e.e, 1, tok)
    ensures Assignable(e.tok) && Formed(e.e) && Ready(st) && InfixLevel(tok) < 1
  {
    hide OpText, Print, IsNameText, Holds, NextIs;
    PlacedParts(e, tok);
    hide Placed;
    PrintNotEmpty(e.e, 1);
    SpacedLength(e.name);
    AssignIsOperator(e.tok);
    SplitInfix(st.text, st.tp, Spaced(e.name), e.tok, Print(e.e, 1));
    q1 := st.tp + |Spaced(e.name)| + 1 + |OpText(e.tok)|;
  }

  lemma AssignIsOperator(tok: Tok)
    requires Assignable(tok)
    ensures tok != End && tok !in {Str, Num, PreInc, PreDec}
  {
  }

  lemma MeaningOfAssign(e: Expr, st: State)
    requires e.Assign? && Valid(st)
    ensures var m := TargetMeaning(e.tok, e.name, st.noeval > 0, st.depth, st.store);
            MeaningAt(e, st) ==
            if m.Broken? then m
            else AssignMeaning(e.tok, e.name, st.noeval > 0, m.value, Meaning(e.e, st.noeval > 0, st.depth, m.store))
  {
    hide Assigned, Stored, Value;
  }

  lemma {:induction false} SimulateAssign(e: Expr, st: State, tok: Tok, q: nat) returns (st': State)
    requires e.Assign? && Poised(e, PrintBare(e), st, tok, q) && Follows(e, 1, tok)
    ensures Simulates(1, st, MeaningAt(e, st), tok, q, st') && Starts(st, e)
    decreases e, 0
  {
    hide Holds, NextIs, Print, PrintBare, Simulates, Steps, Meaning, ReadTok, Formed, Follows, Spaced, IsNameText;
    hide AssignMeaning, TargetMeaning, Assignable, After, Valid;
    var q1 := AssignParts(e, st, tok, q);
    ReadyIsValid(st);
    AssignIsOperator(e.tok);
    AssignableFacts(e.tok);
    MeaningOfAssign(e, st);
    var m := TargetMeaning(e.tok, e.name, st.noeval > 0, st.depth, st.store);
    var st1 := TargetStep(st, e.name, e.tok, q1);
    st' := st1;
    if m.Found? {
      FoundFacts(1, st, m, e.tok, q1, st1);
      AfterIsReady(st, m.store, e.tok, q1, st1, st1.noeval);
      SameNoeval(st1);
      var st2 := Simulate(e.e, 1, st1, tok, q);
      st' := AssignStep(m.value, st1, e.name, MeaningAt(e.e, st1), tok, q, st2);
    }
    Chain(1, st, m, e.tok, q1, st1, MeaningAt(e, st), tok, q, st');
  }

  /** An expression that is not in parentheses, at its own level. */
  lemma {:induction false} SimulateBare(e: Expr, st: State, tok: Tok, q: nat) returns (st': State)
    requires Poised(e, PrintBare(e), st, tok, q) && Follows(e, LevelOf(e), tok)
    ensures Simulates(LevelOf(e), st, MeaningAt(e, st), tok, q, st') && Starts(st, e)
    ensures MeaningAt(e, st).Found? ==> Leaves(e, LevelOf(e), st, st')
    decreases e, 3
  {
    hide ReadTok, NextIs, Holds, Simulates, PrintBare, AfterOperand, Meaning, Leaves, Placed;
    PlacedParts(e, tok);
    if IsInfix(e) {
      st' := SimulateInfix(e, st, tok, q);
    } else if e.Unary? {
      TokenLevel(tok);
      st' := SimulateUnary(e, st, tok, q);
    } else if e.Ternary? {
      st' := SimulateTernary(e, st, tok, q);
    } else if e.Assign? {
      st' := SimulateAssign(e, st, tok, q);
    } else if e.Lit? {
      st' := LiteralStep(e, st, tok, q);
    } else if e.Unread? {
      st' := UnreadStep(e, st, q);
    } else if e.Var? {
      st' := VariableStep(e, st, tok, q);
    } else if e.PreStep? {
      st' := PreStepStep(e, st, tok, q);
    } else if e.PostStep? {
      st' := PostStepStep(e, st, tok, q);
    } else {
      ParenParts(e, st);
      st' := SimulateParens(e.e, st, tok, q);
    }
    if (e.Var? || e.Unread?) && MeaningAt(e, st).Found? {
      LeavesName(e, LevelOf(e), st, st');
    } else if MeaningAt(e, st).Found? && !IsInfix(e) && !e.Assign? {
      LeavesNoName(e, LevelOf(e), st, st');
    } else if e.Assign? {
      LeavesAnything(e, st, st');
    }
  }

  lemma LeavesAnything(e: Expr, st: State, st': State)
    requires Valid(st) && LevelOf(e) < 2
    ensures Leaves(e, LevelOf(e), st, st')
  {
  }

  lemma TokenLevel(tok: Tok)
    ensures InfixLevel(tok) <= 13
  {
  }

  lemma ParenParts(e: Expr, st: State)
    requires e.Paren?
    ensures PrintBare(e) == Spaced("(") + Print(e.e, 0) + Spaced(")")
    ensures Valid(st) ==> MeaningAt(e, st) == MeaningAt(e.e, st)
  {
    hide Spaced;
  }

  /** Level k reads the text of an operand of level k as the operand means. */
  lemma {:induction false} Simulate(e: Expr, k: nat, st: State, tok: Tok, q: nat) returns (st': State)
    requires k <= 15 && Poised(e, Print(e, k), st, tok, q) && Follows(e, k, tok)
    ensures Simulates(k, st, MeaningAt(e, st), tok, q, st') && Starts(st, e)
    ensures MeaningAt(e, st).Found? ==> Leaves(e, k, st, st')
    decreases e, if LevelOf(e) < k then 6 else 4
  {
    hide ReadTok, Meaning, NextIs, Holds, Simulates, Print, PrintBare, Formed, Spaced, AfterOperand, Leaves;
    PrintAtLevel(e, k);
    PlacedAtLevel(e, k, tok);
    TokenLevel(tok);
    if LevelOf(e) < k {
      st' := SimulateParens(e, st, tok, q);
      Descend(15, k, st, MeaningAt(e, st), tok, q, st');
      if MeaningAt(e, st).Found? {
        LeavesParens(e, k, st, st');
      }
    } else {
      st' := SimulateBare(e, st, tok, q);
      Descend(LevelOf(e), k, st, MeaningAt(e, st), tok, q, st');
      if MeaningAt(e, st).Found? {
        LeavesLooser(e, k, st, st');
      }
    }
  }

  lemma PlacedAtLevel(e: Expr, k: nat, tok: Tok)
    requires Placed(e, k, tok)
    ensures LevelOf(e) < k ==> Placed(e, 0, RPar)
    ensures LevelOf(e) >= k ==> Placed(e, LevelOf(e), tok)
  {
    hide PlacedBare;
  }

  lemma PrintAtLevel(e: Expr, k: nat)
    ensures LevelOf(e) < k ==> Print(e, k) == Spaced("(") + Print(e, 0) + Spaced(")")
    ensures LevelOf(e) >= k ==> Print(e, k) == PrintBare(e)
  {
    hide Spaced;
  }

  // ---------- a compound assignment to something else than a variable ----------

  /** What `e op= rhs` comes to when e is not a variable but e's own value can be found: the error, unless e is the
      remainder that leaves its variable's name behind, which then is assigned to. */
  function NonVariableMeaning(e: Expr, op: Tok, rhs: Expr, skip: bool, depth: nat, store: Store): Looked
    requires depth <= MAX_EXPR_RECURSION_LEVEL
  {
    var m := Meaning(e, skip, depth, store);
    if m.Broken? then m
    else if EarlyRemainder(e, skip, depth, store)
    then AssignMeaning(op, e.r.name, skip, m.value, Meaning(rhs, skip, depth, m.store))
    else Broken(NotAVariable, m.store)
  }

  lemma NoVariableCases(v: intmax, st: State)
    requires Valid(st) && (st.curtok == Eq || st.curtok.OpAssign?) && st.lasttok != Str
    ensures Tail(1, v, st) == Fail(NotAVariable, st.store)
  {
    hide ReadTok, Level, Operand;
    assert Tail(1, v, st) == TailAssign(v, st);
  }

  lemma SimulateNonVariable(e: Expr, op: Tok, rhs: Expr, st: State, q1: nat, tok: Tok, q: nat) returns (st': State)
    requires Valid(st) && Poised(e, Print(e, 2), st, op, q1) && Assignable(op) && !e.Var? && !e.Unread?
    requires Placed(e, 2, op)
    requires Formed(rhs) && Holds(st.text, q1, Print(rhs, 1)) && NextIs(st.text, q1 + |Print(rhs, 1)|, tok, q)
    requires Follows(rhs, 1, tok) && InfixLevel(tok) < 1
    ensures Simulates(1, st, NonVariableMeaning(e, op, rhs, st.noeval > 0, st.depth, st.store), tok, q, st')
    ensures Starts(st, e)
  {
    hide *;
    OpAssignFollows(e, op);
    AssignIsOperator(op);
    AssignableFacts(op);
    NonVariableBroken(e, op, rhs, st);
    var m := MeaningAt(e, st);
    var st1 := Simulate(e, 2, st, op, q1);
    DescendOne(2, st, m, op, q1, st1);
    st' := st1;
    if m.Found? {
      LeavesNonVariable(e, st, st1);
      FoundFacts(1, st, m, op, q1, st1);
      AfterIsReady(st, m.store, op, q1, st1, st1.noeval);
      SameNoeval(st1);
      st' := NonVariableTail(e, op, rhs, st, m, st1, tok, q);
    }
    Chain(1, st, m, op, q1, st1, NonVariableMeaning(e, op, rhs, st.noeval > 0, st.depth, st.store), tok, q, st');
  }

  lemma NonVariableBroken(e: Expr, op: Tok, rhs: Expr, st: State)
    requires Valid(st)
    ensures st.depth <= MAX_EXPR_RECURSION_LEVEL
    ensures var m := MeaningAt(e, st);
            m.Broken? ==> NonVariableMeaning(e, op, rhs, st.noeval > 0, st.depth, st.store) == m
  {
    hide Meaning;
  }

  lemma NonVariableTail(e: Expr, op: Tok, rhs: Expr, st: State, m: Looked, st1: State, tok: Tok,
        q: nat) returns (st': State)
    requires Valid(st) && m == MeaningAt(e, st) && m.Found? && Assignable(op)
    requires Ready(st1) && st1.curtok == op && st1.store == m.store && st1.noeval == st.noeval && st1.depth == st.depth
    requires st1.lasttok == Str <==> EarlyRemainder(e, st.noeval > 0, st.depth, st.store)
    requires st1.lasttok == Str ==> e.Binary? && e.r.Var? && st1.tokstr == Some(e.r.name)
    requires Formed(rhs) && Holds(st1.text, st1.tp, Print(rhs, 1))
             && NextIs(st1.text, st1.tp + |Print(rhs, 1)|, tok, q)
    requires Follows(rhs, 1, tok) && InfixLevel(tok) < 1
    ensures Steps(1, m.value, st1, NonVariableMeaning(e, op, rhs, st.noeval > 0, st.depth, st.store), tok, q, st')
  {
    hide Holds, NextIs, Print, Simulates, Steps, Meaning, Formed, AssignMeaning, EarlyRemainder, Tail, Follows,
        Leaves;
    ReadyIsValid(st1);
    if st1.lasttok == Str {
      var st2 := Simulate(rhs, 1, st1, tok, q);
      st' := AssignStep(m.value, st1, e.r.name, MeaningAt(rhs, st1), tok, q, st2);
    } else {
      st' := st1;
      NoVariableCases(m.value, st1);
      StepsFail(1, m.value, st1, Broken(NotAVariable, m.store), tok, q, st');
    }
  }

  lemma OpAssignFollows(e: Expr, op: Tok)
    requires Assignable(op) && Placed(e, 2, op)
    ensures Follows(e, 2, op) && InfixLevel(op) == 1
  {
  }

  lemma LeavesNonVariable(e: Expr, st: State, st': State)
    requires Valid(st) && Leaves(e, 2, st, st') && !e.Var? && !e.Unread?
    ensures st'.lasttok == Str <==> EarlyRemainder(e, st.noeval > 0, st.depth, st.store)
    ensures st'.lasttok == Str ==> e.Binary? && e.r.Var? && st'.tokstr == Some(e.r.name)
  {
    hide Meaning, Value;
  }
}
