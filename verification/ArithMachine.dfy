/** The evaluator of expr.c as it works: one object for its static variables and the shell variables,
    a routine for each level of the grammar, and contexts on a stack for the expressions that
    variables hold. Every routine is proved to do what ArithEval says of the state it is called in. */
module ArithMachine {
  import opened Numbers
  import opened ArithTokens
  import opened ArithEval
  import opened ArithText
  import opened ArithSyntax
  import opened Strings
  import opened Wrappers

  /** A routine's value, or the error that it jumps out with. */
  datatype Signal = Value(v: intmax) | Error(error: EvalError)

  /** What SAVETOK and pushexp save. */
  datatype Context = Context(
    expression: string, tp: nat, curtok: Tok, lasttok: Tok, tokstr: Option<string>, tokval: intmax, noeval: nat)

  // ---------- integer power ----------

  lemma Regroup(a: int, b: int, c: int)
    ensures a * (b * c) == b * (a * c) && (a * b) * c == a * (b * c)
  {
  }

  lemma WrapProduct(a: int, b: int)
    ensures Wrap(Wrap(a) * b) == Wrap(a * b)
  {
    WrapStep(a, b, 0);
  }

  /** The base may be reduced before it is raised to a power. */
  lemma {:induction false} WrapPower(r: int, b: int, n: nat)
    ensures Wrap(r * Pow(Wrap(b), n)) == Wrap(r * Pow(b, n))
    decreases n
  {
    if n > 0 {
      var p, q, w := Pow(Wrap(b), n - 1), Pow(b, n - 1), Wrap(b);
      hide Wrap;
      WrapPower(r * b, b, n - 1);
      hide Pow;
      Regroup(r, w, p);
      Regroup(b, r, p);
      Regroup(r, b, p);
      Regroup(r, b, q);
      WrapProduct(b, r * p);
    }
  }

  lemma {:induction false} PowerOfSquare(b: int, n: nat)
    ensures Pow(b * b, n) == Pow(b, 2 * n)
  {
    if n > 0 {
      PowerOfSquare(b, n - 1);
      Regroup(b, b, Pow(b, 2 * (n - 1)));
    }
  }

  lemma PowerSplit(b: int, n: nat)
    requires n > 0
    ensures Pow(b, n) == if n % 2 == 1 then b * Pow(b * b, n / 2) else Pow(b * b, n / 2)
  {
    PowerOfSquare(b, n / 2);
  }

  /** C's product of two `intmax_t`. */
  function Times(a: intmax, b: intmax): intmax {
    Wrap(a * b)
  }

  /** What the rest of ipow's loop comes to. */
  function Pending(result: int, base: int, exp: nat): intmax {
    Wrap(result * Pow(base, exp))
  }

  lemma PendingStarts(base: int, exp: nat)
    ensures Pending(1, base, exp) == Wrap(Pow(base, exp))
  {
  }

  /** One turn of ipow's loop. */
  lemma IPowTurn(result: intmax, base: intmax, exp: nat)
    requires exp > 0
    ensures Pending(if exp % 2 == 1 then Times(result, base) else result, Times(base, base), exp / 2)
         == Pending(result, base, exp)
  {
    hide Wrap, Pow;
    var square, half := base * base, exp / 2;
    var p := Pow(square, half);
    PowerSplit(base, exp);
    if exp % 2 == 1 {
      WrapPower(Wrap(result * base), square, half);
      WrapProduct(result * base, p);
      Regroup(result, base, p);
    } else {
      WrapPower(result, square, half);
    }
  }

  /** base to the power exp modulo 2 to the 64th, by squaring; no product is ever wider than the two
      factors make it. */
  method IntegerPower(base: intmax, exp: intmax) returns (result: intmax)
    requires exp >= 0
    ensures result == Wrap(Pow(base, exp))
  {
    hide Wrap, Pow, Pending, Times;
    var base, exp: nat := base, exp;
    ghost var wanted := Pending(1, base, exp);
    PendingStarts(base, exp);
    result := 1;
    while exp != 0
      invariant Pending(result, base, exp) == wanted
    {
      IPowTurn(result, base, exp);
      if exp % 2 == 1 {
        result := Times(result, base);
      }
      exp := exp / 2;
      base := Times(base, base);
    }
    PowerOfNone(result, base);
  }

  lemma PowerOfNone(x: intmax, b: int)
    ensures Pending(x, b, 0) == x
  {
  }

  // ---------- integer constants ----------

  method ReadConstant(num: string) returns (r: Constant)
    ensures r == StrLong(num)
  {
    var s: nat, base: nat, foundbase, val: intmax := 0, 10, false, 0;
    if At(num, 0) == '0' {
      s := 1;
      if |num| == 1 {
        return Constant(0);
      }
      if num[s] == 'x' || num[s] == 'X' {
        base := 16;
        s := 2;
      } else {
        base := 8;
      }
      foundbase := true;
    }
    while s < |num|
      invariant s <= |num| && StrLongFrom(num, s, base, foundbase, val) == StrLong(num)
    {
      var c := num[s];
      s := s + 1;
      if c == '#' {
        if foundbase || val < 2 || val > 64 {
          return NoConstant;
        }
        base, val, foundbase := val, 0, true;
        if !(NameChar(At(num, s)) || At(num, s) == '@') {
          return NoConstant;
        }
      } else if NameChar(c) || c == '@' {
        if DigitIn(c, base) >= base {
          return NoConstant;
        }
        val := Wrap(val * base + DigitIn(c, base));
      } else {
        break;
      }
    }
    r := Constant(val);
  }

  // ---------- the routines' specifications, one step at a time ----------

  /** Level k, entered in st0, has come to st with the value v, and goes on as its tail does. */
  predicate Reached(k: nat, st0: State, v: intmax, st: State) {
    && k <= 13 && Valid(st0) && Valid(st) && st.depth == st0.depth && st.noeval == st0.noeval && Left(st) <= Left(st0)
    && Tail(k, v, st) == Level(k, st0)
  }

  /** tok is an operator that level k goes on with. */
  predicate GoesOn(k: nat, tok: Tok) {
    if k == 0 then tok == Comma
    else if k == 1 then tok == Eq || tok.OpAssign?
    else if k == 2 then tok == Ques
    else if k <= 4 then tok == LogicalTok(k)
    else if k <= 12 then BinaryAt(k, tok)
    else tok == Tok.Power
  }

  lemma LevelStarts(k: nat, st0: State)
    requires Valid(st0) && k <= 13
    ensures var r := Level(k + 1, st0);
            if r.Fail? then Level(k, st0) == r
                else Valid(r.st) && Left(r.st) <= Left(st0) && Reached(k, st0, r.value, r.st)
  {
    hide ReadTok, Exp1, Exp0, Tail;
  }

  lemma LevelEnds(k: nat, st0: State, v: intmax, st: State)
    requires Reached(k, st0, v, st) && !GoesOn(k, st.curtok)
    ensures Valid(st) && Level(k, st0) == Ok(v, st)
  {
    hide ReadTok, Level, Operand, CondElse, Keeps, Left;
    if k == 0 {
      assert TailComma(v, st) == Ok(v, st);
    } else if k == 1 {
      assert TailAssign(v, st) == Ok(v, st);
    } else if k == 2 {
      assert TailCond(v, st) == Ok(v, st);
    } else if k <= 4 {
      assert TailLogical(k, v, st) == Ok(v, st);
    } else if k <= 12 {
      assert TailBinary(k, v, st) == Ok(v, st);
    } else {
      assert TailPower(v, st) == Ok(v, st);
    }
  }

  /** What a level does to reach the operand after its operator. */
  predicate Advances(k: nat, st: State, r0: Result) {
    && k <= 15 && Valid(st)
    && (r0.Ok? ==> Valid(r0.st) && r0.st.depth == st.depth && r0.st.noeval == st.noeval && Left(r0.st) < Left(st)
                   && (Level(k, r0.st).Ok? ==> var st1 := Level(k, r0.st).st;
                         Valid(st1) && st1.depth == st.depth && st1.noeval == st.noeval && Left(st1) < Left(st)))
  }

  lemma Advance(k: nat, st: State)
    requires Valid(st) && k <= 15 && st.curtok != End
    ensures Advances(k, st, ReadTok(st))
  {
    hide ReadTok, Level;
    KeepsRead(st);
    if ReadTok(st).Ok? {
      KeepsLevel(k, ReadTok(st).st);
    }
  }

  lemma KeepsRead(st: State)
    requires Valid(st)
    ensures Keeps(st, ReadTok(st)) && (ReadTok(st).Ok? && ReadTok(st).st.curtok != End ==> ReadTok(st).st.tp > st.tp)
  {
  }

  lemma KeepsLevel(k: nat, st: State)
    requires Valid(st) && k <= 15
    ensures Keeps(st, Level(k, st))
  {
  }

  /** The tail of a level from `|` to `+` at its operator. */
  lemma BinaryUnfolds(k: nat, v: intmax, st: State)
    requires Valid(st) && 5 <= k <= 11 && BinaryAt(k, st.curtok)
    ensures var r0 := ReadTok(st);
            if r0.Fail? then Tail(k, v, st) == r0
            else Valid(r0.st) &&
                 var r := Level(k + 1, r0.st);
                 if r.Fail? then Tail(k, v, st) == r
                 else Valid(r.st) && Tail(k, v, st) == Tail(k, Apply(st.curtok, v, r.value), r.st.(lasttok := Num))
  {
    hide ReadTok, Level, Run, Apply, Tail, Left;
    RunCases(k + 1, st);
    BinaryCases(k, v, st);
  }

  /** One turn of the loop of a level from `|` to `+`, from its operator on. */
  lemma BinaryTurn(k: nat, st0: State, v: intmax, st: State)
    requires Reached(k, st0, v, st) && 5 <= k <= 11 && BinaryAt(k, st.curtok)
    ensures Valid(st) && Advances(k + 1, st, ReadTok(st))
    ensures ReadTok(st).Fail? ==> Level(k, st0) == ReadTok(st)
    ensures ReadTok(st).Ok? ==>
              var r := Level(k + 1, ReadTok(st).st);
              if r.Fail? then Level(k, st0) == r
              else Valid(r.st.(lasttok := Num)) && Left(r.st.(lasttok := Num)) < Left(st)
                   && Reached(k, st0, Apply(st.curtok, v, r.value), r.st.(lasttok := Num))
  {
    hide ReadTok, Level, Apply, Tail;
    Advance(k + 1, st);
    BinaryUnfolds(k, v, st);
  }

  lemma CommaTurn(st0: State, v: intmax, st: State)
    requires Reached(0, st0, v, st) && st.curtok == Comma
    ensures Valid(st) && Advances(1, st, ReadTok(st))
    ensures ReadTok(st).Fail? ==> Level(0, st0) == ReadTok(st)
    ensures ReadTok(st).Ok? ==>
              var r := Level(1, ReadTok(st).st);
              if r.Fail? then Level(0, st0) == r else Reached(0, st0, r.value, r.st)
  {
    hide ReadTok, Level, Run, Tail;
    Advance(1, st);
    RunCases(1, st);
    CommaCases(v, st);
  }

  function Inner(k: nat, v: intmax, st: State): State {
    st.(noeval := if Decides(k, v) then st.noeval + 1 else st.noeval)
  }

  lemma LogicalTurn(k: nat, st0: State, v: intmax, st: State)
    requires Reached(k, st0, v, st) && 3 <= k <= 4 && st.curtok == LogicalTok(k)
    ensures var s := Inner(k, v, st);
            && Valid(st) && Valid(s) && Left(s) == Left(st) && Advances(k + 1, s, ReadTok(s))
            && (ReadTok(s).Fail? ==> Level(k, st0) == ReadTok(s))
            && (ReadTok(s).Ok? ==>
                  var r := Level(k + 1, ReadTok(s).st);
                  if r.Fail? then Level(k, st0) == r
                  else var next := r.st.(noeval := st.noeval, lasttok := LogicalTok(k));
                       Valid(next) && Left(next) < Left(st) && Reached(k, st0, ArithEval.Logical(k, v, r.value), next))
  {
    hide ReadTok, Level, Run, Tail, Decides, ArithEval.Logical;
    Advance(k + 1, Inner(k, v, st));
    RunCases(k + 1, Inner(k, v, st));
    LogicalCases(k, v, st);
  }

  /** The tail of expmuldiv at its operator. */
  lemma MulDivUnfolds(v: intmax, st: State)
    requires Valid(st) && BinaryAt(12, st.curtok)
    ensures var op, r0 := st.curtok, ReadTok(st);
            if r0.Fail? then Tail(12, v, st) == r0
            else Valid(r0.st) &&
                 var r := Level(13, r0.st);
                 if r.Fail? then Tail(12, v, st) == r
                 else
                   && Valid(r.st) && r.st.noeval == st.noeval
                   && var byZero := (op == Div || op == Mod) && r.value == 0;
                      if byZero && st.noeval == 0 then Tail(12, v, st) == Fail(DivisionByZero, r.st.store)
                      else
                        var divisor: intmax := if byZero then 1 else r.value;
                        var last := if op == Mod && v == INTMAX_MIN && divisor == -1 then r.st.lasttok else Num;
                        Tail(12, v, st) == Tail(12, Apply(op, v, divisor), r.st.(lasttok := last))
  {
    hide ReadTok, Level, Run, Apply, Tail, Left;
    RunCases(13, st);
    BinaryCases(12, v, st);
  }

  lemma MulDivTurn(st0: State, v: intmax, st: State)
    requires Reached(12, st0, v, st) && BinaryAt(12, st.curtok)
    ensures Valid(st) && Advances(13, st, ReadTok(st))
    ensures ReadTok(st).Fail? ==> Level(12, st0) == ReadTok(st)
    ensures ReadTok(st).Ok? ==>
              var op, r := st.curtok, Level(13, ReadTok(st).st);
              if r.Fail? then Level(12, st0) == r
              else
                var byZero := (op == Div || op == Mod) && r.value == 0;
                if byZero && st.noeval == 0 then Level(12, st0) == Fail(DivisionByZero, r.st.store)
                else
                  var divisor: intmax := if byZero then 1 else r.value;
                  var next := r.st.(lasttok := if op == Mod && v == INTMAX_MIN && divisor == -1 then r.st.lasttok
                      else Num);
                  Valid(next) && Left(next) < Left(st) && Reached(12, st0, Apply(op, v, divisor), next)
  {
    hide ReadTok, Level, Apply, Tail;
    Advance(13, st);
    MulDivUnfolds(v, st);
  }

  lemma PowerTurn(st0: State, v: intmax, st: State)
    requires Reached(13, st0, v, st) && st.curtok == Tok.Power
    ensures Valid(st) && Advances(13, st, ReadTok(st))
    ensures ReadTok(st).Fail? ==> Level(13, st0) == ReadTok(st)
    ensures ReadTok(st).Ok? ==>
              var r := Level(13, ReadTok(st).st);
              if r.Fail? then Level(13, st0) == r
              else
                var next := r.st.(lasttok := Num);
                if r.value == 0 then Level(13, st0) == Ok(1, next)
                else if r.value < 0 then Level(13, st0) == Fail(NegativeExponent, r.st.store)
                else Valid(next) && Left(next) < Left(st) && Reached(13, st0, IPow(v, r.value), next)
  {
    hide ReadTok, Level, Run, Tail, IPow;
    Advance(13, st);
    RunCases(13, st);
    PowerCases(v, st);
  }

  lemma AssignEnds(st0: State, v: intmax, st: State)
    requires Reached(1, st0, v, st) && (st.curtok == Eq || st.curtok.OpAssign?)
    ensures Valid(st) && Advances(1, st, ReadTok(st))
    ensures st.lasttok != Str ==> Level(1, st0) == Fail(NotAVariable, st.store)
    ensures st.lasttok == Str && st.tokstr.None? ==> Level(1, st0) == Fail(SyntaxError, st.store)
    ensures st.lasttok == Str && st.tokstr.Some? ==>
              if ReadTok(st).Fail? then Level(1, st0) == ReadTok(st)
              else
                var r := Level(1, ReadTok(st).st);
                if r.Fail? then Level(1, st0) == r
                else
                  var a := Assigned(st.curtok, st.noeval, v, r.value);
                  Level(1, st0) ==
                  if a.None? then Fail(DivisionByZero, r.st.store)
                  else Ok(a.value, r.st.(tokstr := None, store := if st.noeval == 0
                      then Bind(r.st.store, st.tokstr, a.value) else r.st.store))
  {
    Advance(1, st);
    hide ReadTok, Level, Left, Keeps, Assigned, Bind;
    assert Tail(1, v, st) == TailAssign(v, st);
    var r0 := ReadTok(st);
    assert Operand(1, st) == if r0.Fail? then r0 else Level(1, r0.st);
  }

  /** expcond from its `?` on. */
  lemma CondThen(v: intmax, st: State)
    requires Valid(st) && st.curtok == Ques
    ensures Valid(ThenState(v, st)) && Left(ThenState(v, st)) == Left(st)
    ensures Advances(0, ThenState(v, st), ReadTok(ThenState(v, st)))
    ensures Tail(2, v, st) == CondFrom(v, st, ReadTok(ThenState(v, st)))
    ensures var r0 := ReadTok(ThenState(v, st));
            r0.Ok? && Level(0, r0.st).Ok? ==>
              var next := Level(0, r0.st).st.(noeval := st.noeval);
              Valid(next) && Left(next) < Left(st)
  {
    hide ReadTok, Level, Keeps, CondElse;
    Advance(0, ThenState(v, st));
    assert Tail(2, v, st) == TailCond(v, st);
  }

  /** The rest of expcond after its `?` has been read with result r0. */
  function CondFrom(v: intmax, st: State, r0: Result): Result
    requires Valid(st) && Valid(ThenState(v, st)) && Advances(0, ThenState(v, st), r0)
  {
    if r0.Fail? then r0
    else if r0.st.curtok == End || r0.st.curtok == Col then Fail(ExpressionExpected, r0.st.store)
    else
      var r := Level(0, r0.st);
      if r.Fail? then r
      else if r.st.curtok != Col then Fail(ColonExpected, r.st.store)
      else CondElse(v, r.value, r.st.(noeval := st.noeval))
  }

  /** expcond from its `:` on. */
  lemma CondElseUnfolds(v: intmax, v1: intmax, st: State)
    requires Valid(st) && st.curtok == Col
    ensures var s := ElseState(v, st.noeval, st);
            && Valid(s) && Left(s) == Left(st) && Advances(2, s, ReadTok(s))
            && CondElse(v, v1, st) ==
               if ReadTok(s).Fail? then ReadTok(s)
               else if ReadTok(s).st.curtok == End then Fail(ExpressionExpected, ReadTok(s).st.store)
               else
                 var r := Level(2, ReadTok(s).st);
                 if r.Fail? then r
                 else Ok(if v != 0 then v1 else r.value, r.st.(noeval := st.noeval, lasttok := Cond))
  {
    hide ReadTok, Level, Keeps;
    Advance(2, ElseState(v, st.noeval, st));
  }

  lemma UnaryUnfolds(st: State)
    requires Valid(st)
    ensures !IsUnary(st.curtok) ==> Level(14, st) == Level(15, st)
    ensures IsUnary(st.curtok) ==> Advances(14, st, ReadTok(st)) && Level(14, st) == UnaryFrom(st, ReadTok(st))
  {
    hide ReadTok, Level, Left, Run, ArithEval.Unary;
    LevelCases(14, st);
    if IsUnary(st.curtok) {
      Advance(14, st);
      RunCases(14, st);
      UnaryCases(st);
    }
  }

  /** The rest of exp1 after its operator has been read with result r0. */
  function UnaryFrom(st: State, r0: Result): Result
    requires Advances(14, st, r0)
  {
    if r0.Fail? then r0
    else
      var r := Level(14, r0.st);
      if r.Fail? then r else Ok(ArithEval.Unary(st.curtok, r.value), r.st.(lasttok := Num))
  }

  lemma ParenUnfolds(st: State)
    requires Valid(st) && st.curtok == LPar
    ensures Advances(0, st, ReadTok(st)) && Level(15, st) == ParenFrom(st, ReadTok(st))
  {
    hide ReadTok, Level, Left, Run, ReadAfter;
    Advance(0, st);
    RunCases(0, st);
    PrimaryCases(st);
  }

  /** The rest of exp0 after `(` has been read with result r0. */
  function ParenFrom(st: State, r0: Result): Result
    requires Advances(0, st, r0)
  {
    if r0.Fail? then r0
    else
      var r := Level(0, r0.st);
      if r.Fail? then r
      else if r.st.curtok != RPar then Fail(MissingParen, r.st.store)
      else ReadAfter(r.value, r.st)
  }

  lemma ReadAfterUnfolds(v: intmax, st: State)
    requires Valid(st)
    ensures ReadAfter(v, st) == if ReadTok(st).Fail? then ReadTok(st) else Ok(v, ReadTok(st).st)
  {
    hide ReadTok, Keeps, Left;
  }

  lemma PreStepUnfolds(st: State)
    requires Valid(st) && (st.curtok == PreInc || st.curtok == PreDec)
    ensures var s := st.(lasttok := st.curtok);
            && Valid(s) && Left(s) == Left(st) && Advances(15, s, ReadTok(s))
            && Level(15, st) ==
               if ReadTok(s).Fail? then ReadTok(s)
               else if ReadTok(s).st.curtok != Str then Fail(LvalueRequired, ReadTok(s).st.store)
               else
                 var s1 := ReadTok(s).st;
                 var v := Stepped(st.curtok, s1.tokval);
                 ReadAfter(v, s1.(curtok := Num, store := BindUnlessSkipped(s1, s1.tokstr, v)))
  {
    hide ReadTok, Level, ReadAfter, Stepped, BindUnlessSkipped;
    Advance(15, st.(lasttok := st.curtok));
    PrimaryCases(st);
  }

  lemma VariableUnfolds(st: State)
    requires Valid(st) && st.curtok == Str
    ensures var s := st.(noeval := 1, tokstr := None);
            var r := ReadTok(s);
            && Valid(s) && Left(s) == Left(st)
            && (r.Fail? ==> r.store == st.store && Level(15, st) == r)
            && (r.Ok? ==>
                  && Valid(VariableNext(st, r.st)) && Left(VariableNext(st, r.st)) <= Left(st)
                  && r.st.store == st.store && r.st.text == st.text && r.st.depth == st.depth
                  && Level(15, st) == ReadAfter(st.tokval, VariableNext(st, r.st)))
  {
    hide ReadTok, Level, ReadAfter, Stepped, BindUnlessSkipped;
    KeepsRead(st.(noeval := 1, tokstr := None));
    PrimaryCases(st);
  }

  /** Where exp0 goes on after a variable, when the token that follows it has led to peek. */
  function VariableNext(st: State, peek: State): State {
    if peek.curtok == PostInc || peek.curtok == PostDec then
      var back := peek.(tokstr := st.tokstr, noeval := st.noeval, lasttok := Str, curtok := Num);
      back.(store := BindUnlessSkipped(back, st.tokstr, Stepped(peek.curtok, st.tokval)))
    else st
  }

  lemma OtherTokens(st: State)
    requires Valid(st) && st.curtok !in {PreInc, PreDec, LPar, Num, Str}
    ensures Level(15, st) == Fail(OperandExpected, st.store)
  {
    hide ReadTok, Left, Keeps;
    assert Level(15, st) == Exp0(st);
  }

  /** C's quotient or remainder, which is in range. */
  function Quotient(op: Tok, a: intmax, b: intmax): (q: intmax)
    requires b != 0 && (op == Div ==> a != INTMAX_MIN || b != -1)
  {
    QuotientBound(a, b);
    if op == Div then DivC(a, b) else ModC(a, b)
  }

  lemma QuotientBound(a: int, b: int)
    requires b != 0
    ensures 0 <= Abs(a) / Abs(b) <= Abs(a) && 0 <= Abs(a) % Abs(b) <= Abs(a)
    ensures Abs(b) >= 2 ==> 2 * (Abs(a) / Abs(b)) <= Abs(a)
  {
    DivisionBound(Abs(a), Abs(b));
  }

  lemma DivisionBound(x: nat, y: nat)
    requires y > 0
    ensures 0 <= x / y <= x && 0 <= x % y <= x && (y >= 2 ==> 2 * (x / y) <= x)
  {
    var q, r := x / y, x % y;
    assert x == q * y + r;
    ProductBound(q, y);
    if y >= 2 {
      ProductBound(q, y - 1);
      assert q * y == q * (y - 1) + q;
    }
  }

  lemma DivisionInRange(op: Tok, a: intmax, b: intmax)
    requires b != 0 && (op == Div || op == Mod)
    ensures !(a == INTMAX_MIN && b == -1) ==> Apply(op, a, b) == Quotient(op, a, b)
    ensures a == INTMAX_MIN && b == -1 ==> Apply(op, a, b) == if op == Div then INTMAX_MIN else 0
    ensures op == Div ==> Quotient(Div, INTMAX_MIN, 1) == INTMAX_MIN
  {
  }

  lemma MultiplicationIs(a: intmax, b: intmax)
    ensures Apply(Mul, a, b) == Times(a, b)
  {
  }

  lemma IPowIs(a: intmax, n: nat)
    ensures IPow(a, n) == Wrap(Pow(a, n))
  {
  }

  lemma SameLeft(a: State, b: State)
    requires Valid(a) && Valid(b) && a.text == b.text && a.tp == b.tp && (a.curtok == End <==> b.curtok == End)
    ensures Left(a) == Left(b)
  {
  }

  /** subexpr: empty text, no room on the stack, or the tokens of the text from its first. */
  lemma SubExprUnfolds(text: string, depth: nat, store: Store)
    requires depth <= MAX_EXPR_RECURSION_LEVEL
    ensures SkipBlank(text, 0) == |text| ==> SubExpr(text, depth, store) == Found(0, store)
    ensures SkipBlank(text, 0) != |text| && depth == MAX_EXPR_RECURSION_LEVEL ==>
              SubExpr(text, depth, store) == Broken(RecursionLevel, store)
    ensures SkipBlank(text, 0) != |text| && depth < MAX_EXPR_RECURSION_LEVEL ==>
              var st := State(text, 0, End, End, None, 0, 0, depth + 1, store);
              && Valid(st) && Left(st) == 2 * |text|
              && (ReadTok(st).Ok? ==> Valid(ReadTok(st).st) && Left(ReadTok(st).st) <= 2 * |text| + 1)
              && SubExpr(text, depth, store) ==
                 if ReadTok(st).Fail? then Broken(ReadTok(st).error, ReadTok(st).store)
                 else
                   var r := Level(0, ReadTok(st).st);
                   if r.Fail? then Broken(r.error, r.store)
                   else if r.st.curtok != End then Broken(SyntaxError, r.st.store)
                   else Found(r.value, r.st.store)
  {
    hide ReadTok, Level, SkipBlank;
  }

  /** readtok at a token that is not a name, after the blanks. */
  lemma ReadTokUnfolds(st: State)
    requires Valid(st)
    ensures var cp := SkipBlank(st.text, st.tp);
            !(cp < |st.text| && NameStart(st.text[cp])) ==>
            ReadTok(st) ==
            if cp == |st.text| then Ok(0, st.(lasttok := st.curtok, curtok := End, tp := cp))
            else if IsDigit(st.text[cp]) then
              var e := NumEnd(st.text, cp);
              var number := StrLong(st.text[cp..e]);
              if number.NoConstant? then Fail(BadNumber, st.store)
              else Ok(0, Advanced(st, Num, e).(tokval := number.value))
            else
              var lexed := LexOperator(st.text, cp, st.curtok, st.lasttok);
              if lexed.LexError? then Fail(lexed.error, st.store) else Ok(0, Advanced(st, lexed.tok, cp + lexed.length))
  {
    hide StrEval, StrLong, LexOperator, Keeps, Left;
  }

  /** Blanks before a token do not matter. */
  lemma BlanksBeforeToken(st: State)
    requires Valid(st)
    ensures var s := st.(tp := SkipBlank(st.text, st.tp));
            Valid(s) && Left(s) <= Left(st) && ReadTok(st) == ReadTok(s) && SkipBlank(s.text, s.tp) == s.tp
  {
    hide StrEval, StrLong, LexOperator, Keeps;
    assert SkipBlank(st.text, SkipBlank(st.text, st.tp)) == SkipBlank(st.text, st.tp);
  }

  /** readtok at a name. */
  lemma NameUnfolds(st: State)
    requires Valid(st) && st.tp < |st.text| && NameStart(st.text[st.tp])
    ensures var e := NameEnd(st.text, st.tp);
            var s := st.(tp := e, noeval := 1, curtok := Str, tokstr := None);
            && Valid(s) && Left(s) < Left(st) && Left(st) > 0
            && ReadTok(st) == (if ReadTok(s).Fail? then Fail(ReadTok(s).error, st.store)
                               else ReadValue(st, st.text[st.tp..e], e, ReadTok(s).st.curtok))
            && (ReadTok(s).Fail? ==> ReadTok(s).store == st.store)
            && (ReadTok(s).Ok? ==> ReadTok(s).st.store == st.store && ReadTok(s).st.text == st.text)
  {
    hide StrEval, StrLong, LexOperator, Keeps;
    NameIsNoBlank(st.text, st.tp);
    KeepsPeek(st.(tp := NameEnd(st.text, st.tp), noeval := 1, curtok := Str, tokstr := None));
  }

  lemma NameIsNoBlank(text: string, p: nat)
    requires p < |text| && NameStart(text[p])
    ensures SkipBlank(text, p) == p && NameEnd(text, p) > p
  {
  }

  lemma KeepsPeek(st: State)
    requires Valid(st) && st.noeval > 0
    ensures var r := ReadTok(st); if r.Ok? then r.st.store == st.store && r.st.text == st.text else r.store == st.store
  {
    hide ReadTok, Left;
  }

  lemma ExpBorApplies(a: intmax, b: intmax)
    ensures Apply(BOr, a, b) == BitOp((x: bool, y: bool) => x || y, a, b)
  {
  }

  lemma ExpBxorApplies(a: intmax, b: intmax)
    ensures Apply(BXor, a, b) == BitOp((x: bool, y: bool) => x != y, a, b)
  {
  }

  lemma ExpBandApplies(a: intmax, b: intmax)
    ensures Apply(BAnd, a, b) == BitOp((x: bool, y: bool) => x && y, a, b)
  {
  }

  lemma Exp5Applies(op: Tok, a: intmax, b: intmax)
    requires op == EqEq || op == Neq
    ensures Apply(op, a, b) == Truth(if op == EqEq then a == b else a != b)
  {
  }

  lemma Exp4Applies(op: Tok, a: intmax, b: intmax)
    requires op == Leq || op == Geq || op == Lt || op == Gt
    ensures Apply(op, a, b)
            == Truth(if op == Leq then a <= b else if op == Geq then a >= b else if op == Lt then a < b else a > b)
  {
  }

  lemma ExpShiftApplies(op: Tok, a: intmax, b: intmax)
    requires op == Lsh || op == Rsh
    ensures Apply(op, a, b) == (if op == Lsh then Wrap(a * Power2(b % 64)) else Wrap(a / Power2(b % 64)))
  {
  }

  lemma Exp3Applies(op: Tok, a: intmax, b: intmax)
    requires op == Plus || op == Minus
    ensures Apply(op, a, b) == Wrap(if op == Plus then a + b else a - b)
  {
  }

  /** A routine ended in st as m says and left the stack as it was; after an error only the variables matter. */
  predicate Does(r: Signal, m: Result, st: State, stack: seq<Context>, stack0: seq<Context>) {
    if m.Ok? then r == Value(m.value) && st == m.st && stack == stack0
    else r == Error(m.error) && st.store == m.store
  }

  /** The same for a variable's value, looked up in st0, which leaves all else alone. */
  predicate Finds(r: Signal, m: Looked, st0: State, st: State, stack: seq<Context>, stack0: seq<Context>) {
    if m.Found? then r == Value(m.value) && st == st0.(store := m.store) && stack == stack0
    else r == Error(m.error) && st.store == m.store
  }

  class Evaluator {
    var expression: string
    var tp: nat
    var curtok: Tok
    var lasttok: Tok
    var tokstr: Option<string>
    var tokval: intmax
    var noeval: nat
    var stack: seq<Context>
    var variables: Store

    constructor (variables: Store)
      ensures this.variables == variables && stack == []
    {
      expression, tp, curtok, lasttok, tokstr, tokval, noeval := "", 0, End, End, None, 0, 0;
      stack := [];
      this.variables := variables;
    }

    /** The whole state as a value; the depth of the recursion is the height of the stack. */
    ghost function Snapshot(): State
      reads this
    {
      State(expression, tp, curtok, lasttok, tokstr, tokval, noeval, |stack|, variables)
    }

    function Save(): (c: Context)
      reads this
    {
      Context(expression, tp, curtok, lasttok, tokstr, tokval, noeval)
    }

    method Restore(c: Context)
      modifies this`tp, this`curtok, this`lasttok, this`tokstr, this`tokval, this`noeval
      ensures tp == c.tp && curtok == c.curtok && lasttok == c.lasttok && tokstr == c.tokstr && tokval == c.tokval
              && noeval == c.noeval
    {
      tp, curtok, lasttok, tokstr, tokval, noeval := c.tp, c.curtok, c.lasttok, c.tokstr, c.tokval, c.noeval;
    }

    method Push() returns (r: Signal)
      modifies this`stack
      ensures r == (if |old(stack)| >= MAX_EXPR_RECURSION_LEVEL then Error(RecursionLevel) else Value(0))
      ensures stack == if r.Error? then old(stack) else old(stack) + [Save()]
    {
      if |stack| >= MAX_EXPR_RECURSION_LEVEL {
        return Error(RecursionLevel);
      }
      stack := stack + [Save()];
      r := Value(0);
    }

    method Pop()
      requires stack != []
      modifies this
      ensures stack == old(stack[..|stack| - 1]) && Save() == old(stack[|stack| - 1]) && variables == old(variables)
    {
      var c := stack[|stack| - 1];
      stack := stack[..|stack| - 1];
      expression := c.expression;
      Restore(c);
    }

    method BindVariable(lhs: Option<string>, rhs: string)
      modifies this`variables
      ensures variables == if lhs.None? || lhs.value == "" then old(variables) else old(variables)[lhs.value := rhs]
    {
      if lhs.Some? && lhs.value != "" {
        variables := variables[lhs.value := rhs];
      }
    }

    // ---------- whole expressions ----------

    /** evalexp: the value of an expression, and whether it is valid. */
    method Evaluate(expr: string) returns (v: intmax, valid: bool)
      requires stack == []
      modifies this
      ensures var m := SubExpr(expr, 0, old(variables));
              && valid == m.Found? && v == (if m.Found? then m.value else 0) && variables == m.store
      ensures stack == [] && noeval == 0
    {
      noeval := 0;
      var r := SubExpression(expr);
      valid := r.Value?;
      if valid {
        v := r.v;
      } else {
        tokstr, expression, noeval, stack := None, "", 0, [];
        v := 0;
      }
    }

    method SkipWhitespace(text: string, start: nat) returns (p: nat)
      requires start <= |text|
      ensures p == SkipBlank(text, start)
    {
      p := start;
      while p < |text| && IsBlank(text[p])
        invariant p <= |text| && SkipBlank(text, p) == SkipBlank(text, start)
      {
        p := p + 1;
      }
    }

    method SubExpression(expr: string) returns (r: Signal)
      requires |stack| <= MAX_EXPR_RECURSION_LEVEL && noeval == 0
      modifies this
      ensures Finds(r, SubExpr(expr, |old(stack)|, old(variables)), old(Snapshot()), Snapshot(), stack, old(stack))
      decreases MAX_EXPR_RECURSION_LEVEL - |stack|, 0, 0
    {
      hide SubExpr, ReadTok, Level, Left, Keeps, SkipBlank, Valid;
      SubExprUnfolds(expr, |stack|, variables);
      var p := SkipWhitespace(expr, 0);
      if p == |expr| {
        return Value(0);
      }
      r := Push();
      if r.Error? {
        return;
      }
      r := PushedExpression(expr);
      if r.Error? {
        return;
      }
      Pop();
    }

    /** subexpr between the push of its caller's context and the pop. */
    method PushedExpression(expr: string) returns (r: Signal)
      requires 0 < |stack| <= MAX_EXPR_RECURSION_LEVEL && noeval == 0 && SkipBlank(expr, 0) != |expr|
      modifies this
      ensures var m := SubExpr(expr, |old(stack)| - 1, old(variables));
              && variables == m.store
              && (if m.Found? then r == Value(m.value) && stack == old(stack) else r == Error(m.error))
      decreases MAX_EXPR_RECURSION_LEVEL - |stack|, 2 * |expr| + 2, 0
    {
      hide SubExpr, ReadTok, Level, Left, Keeps, SkipBlank, Valid;
      SubExprUnfolds(expr, |stack| - 1, variables);
      expression, tp, curtok, lasttok, tokstr, tokval := expr, 0, End, End, None, 0;
      r := ReadToken();
      if r.Error? {
        return;
      }
      r := ExpComma();
      if r.Error? {
        return;
      }
      if curtok != End {
        return Error(SyntaxError);
      }
    }

    method StringValue(tok: string) returns (r: Signal)
      requires |stack| <= MAX_EXPR_RECURSION_LEVEL
      modifies this
      ensures Finds(r, StrEval(tok, old(noeval), |old(stack)|, old(variables)), old(Snapshot()), Snapshot(), stack,
              old(stack))
      decreases MAX_EXPR_RECURSION_LEVEL - |stack|, 0, 1
    {
      hide SubExpr;
      if noeval > 0 {
        return Value(0);
      }
      var value := if tok in variables then variables[tok] else "";
      if value != "" {
        r := SubExpression(value);
      } else {
        r := Value(0);
      }
    }

    // ---------- tokens ----------

    method ReadToken() returns (r: Signal)
      requires Valid(Snapshot())
      modifies this
      ensures Does(r, ReadTok(old(Snapshot())), Snapshot(), stack, old(stack))
      decreases MAX_EXPR_RECURSION_LEVEL - |stack|, Left(Snapshot()), 1
    {
      hide ReadTok, Left, StrEval, LexOperator, StrLong, Keeps, SkipBlank, NameStart;
      BlanksBeforeToken(Snapshot());
      tp := SkipWhitespace(expression, tp);
      if tp < |expression| && NameStart(expression[tp]) {
        r := ReadName();
        return;
      }
      ReadTokUnfolds(Snapshot());
      if tp == |expression| {
        lasttok, curtok := curtok, End;
        return Value(0);
      }
      r := ReadOther();
    }

    /** The part of readtok for numbers and operators. */
    method ReadOther() returns (r: Signal)
      requires Valid(Snapshot()) && tp < |expression| && SkipBlank(expression, tp) == tp && !NameStart(expression[tp])
      modifies this
      ensures Does(r, ReadTok(old(Snapshot())), Snapshot(), stack, old(stack))
    {
      hide ReadTok, Left, StrEval, LexOperator, StrLong, Keeps, SkipBlank, NameStart, IsDigit, NumEnd;
      ReadTokUnfolds(Snapshot());
      var cp := tp;
      if IsDigit(expression[cp]) {
        cp := EndOfNumber();
        var number := ReadConstant(expression[tp..cp]);
        if number.NoConstant? {
          return Error(BadNumber);
        }
        tokval, lasttok, curtok := number.value, curtok, Num;
      } else {
        var lexed := LexOperator(expression, cp, curtok, lasttok);
        if lexed.LexError? {
          return Error(lexed.error);
        }
        cp, lasttok, curtok := cp + lexed.length, curtok, lexed.tok;
      }
      tp := cp;
      r := Value(0);
    }

    method EndOfNumber() returns (cp: nat)
      requires tp <= |expression|
      ensures cp == NumEnd(expression, tp)
    {
      cp := tp;
      while cp < |expression| && NumChar(expression[cp])
        invariant tp <= cp <= |expression| && NumEnd(expression, cp) == NumEnd(expression, tp)
      {
        cp := cp + 1;
      }
    }

    method EndOfName() returns (cp: nat)
      requires tp <= |expression|
      ensures cp == NameEnd(expression, tp)
    {
      cp := tp;
      while cp < |expression| && NameChar(expression[cp])
        invariant tp <= cp <= |expression| && NameEnd(expression, cp) == NameEnd(expression, tp)
      {
        cp := cp + 1;
      }
    }

    /** The part of readtok for a name: one token ahead is read, with evaluation suppressed, to see whether
        the name is about to be assigned to. */
    method ReadName() returns (r: Signal)
      requires Valid(Snapshot()) && tp < |expression| && NameStart(expression[tp])
      modifies this
      ensures Does(r, ReadTok(old(Snapshot())), Snapshot(), stack, old(stack))
      decreases MAX_EXPR_RECURSION_LEVEL - |stack|, Left(Snapshot()), 0
    {
      hide ReadTok, Left, StrEval, LexOperator, StrLong, Keeps;
      hide NameEnd, NameStart, SkipBlank;
      NameUnfolds(Snapshot());
      var cp := EndOfName();
      tokstr := Some(expression[tp..cp]);
      var ec := Save();
      tokstr, tp, noeval, curtok := None, cp, 1, Str;
      r := ReadToken();
      if r.Error? {
        return;
      }
      var peektok := curtok;
      Restore(ec);
      r := ReadNameValue(cp, peektok);
    }

    /** The part of readtok that looks up the name it has read, if no assignment follows. */
    method ReadNameValue(cp: nat, peektok: Tok) returns (r: Signal)
      requires Valid(Snapshot()) && tokstr.Some?
      modifies this
      ensures Does(r, ReadValue(old(Snapshot()), old(tokstr).value, cp, peektok), Snapshot(), stack, old(stack))
      decreases MAX_EXPR_RECURSION_LEVEL - |stack|, 0, 2
    {
      hide StrEval;
      if lasttok == PreInc || lasttok == PreDec || peektok != Eq {
        r := StringValue(tokstr.value);
        if r.Error? {
          return;
        }
        tokval := r.v;
      } else {
        tokval := 0;
      }
      lasttok, curtok, tp := curtok, Str, cp;
      r := Value(0);
    }

    // ---------- the levels ----------

    /** expcomma */
    method ExpComma() returns (r: Signal)
      requires Valid(Snapshot())
      modifies this
      ensures Does(r, Level(0, old(Snapshot())), Snapshot(), stack, old(stack))
      decreases MAX_EXPR_RECURSION_LEVEL - |stack|, Left(Snapshot()), 21
    {
      hide Level, ReadTok, Left, Valid, Keeps, Reached;
      ghost var st0 := Snapshot();
      LevelStarts(0, st0);
      r := ExpAssign();
      if r.Error? {
        return;
      }
      while curtok == Comma
        invariant r.Value? && Valid(Snapshot()) && Reached(0, st0, r.v, Snapshot()) && stack == old(stack)
                  && Left(Snapshot()) <= Left(st0)
        decreases Left(Snapshot())
      {
        CommaTurn(st0, r.v, Snapshot());
        r := ReadToken();
        if r.Error? {
          return;
        }
        r := ExpAssign();
        if r.Error? {
          return;
        }
      }
      LevelEnds(0, st0, r.v, Snapshot());
    }

    /** expassign */
    method ExpAssign() returns (r: Signal)
      requires Valid(Snapshot())
      modifies this
      ensures Does(r, Level(1, old(Snapshot())), Snapshot(), stack, old(stack))
      decreases MAX_EXPR_RECURSION_LEVEL - |stack|, Left(Snapshot()), 20
    {
      hide Level, ReadTok, Left, Valid, Keeps, Reached, Apply;
      ghost var st0 := Snapshot();
      LevelStarts(1, st0);
      r := ExpCond();
      if r.Error? {
        return;
      }
      if curtok == Eq || curtok.OpAssign? {
        var assign, value := curtok, r.v;
        AssignEnds(st0, value, Snapshot());
        if lasttok != Str {
          return Error(NotAVariable);
        }
        if tokstr.None? {
          return Error(SyntaxError);
        }
        var lhs := tokstr;
        r := ReadToken();
        if r.Error? {
          return;
        }
        r := ExpAssign();
        if r.Error? {
          return;
        }
        if assign.OpAssign? {
          r := Compound(assign, value, r.v);
          if r.Error? {
            return;
          }
        }
        if noeval == 0 {
          BindVariable(lhs, Itos(r.v));
        }
        tokstr := None;
      } else {
        LevelEnds(1, st0, r.v, Snapshot());
      }
    }

    /** The part of expassign that computes what `op=` stores. */
    method Compound(assign: Tok, lvalue: intmax, right: intmax) returns (r: Signal)
      requires assign.OpAssign?
      ensures var a := Assigned(assign, noeval, lvalue, right);
              r == if a.None? then Error(DivisionByZero) else Value(a.value)
    {
      hide Apply;
      var op, value := assign.op, right;
      if (op == Div || op == Mod) && value == 0 {
        if noeval == 0 {
          return Error(DivisionByZero);
        }
        value := 1;
      }
      if op == Div || op == Mod {
        DivisionInRange(op, lvalue, value);
        r := Value(if lvalue == INTMAX_MIN && value == -1 then if op == Div then INTMAX_MIN else 0
                   else Quotient(op, lvalue, value));
      } else {
        r := Value(Apply(op, lvalue, value));
      }
    }

    /** expcond */
    method ExpCond() returns (r: Signal)
      requires Valid(Snapshot())
      modifies this
      ensures Does(r, Level(2, old(Snapshot())), Snapshot(), stack, old(stack))
      decreases MAX_EXPR_RECURSION_LEVEL - |stack|, Left(Snapshot()), 19
    {
      hide Level, ReadTok, Left, Keeps;
      ghost var st0 := Snapshot();
      LevelStarts(2, st0);
      r := ExpLor();
      if r.Error? {
        return;
      }
      if curtok == Ques {
        r := ThenOperand(r.v);
      } else {
        LevelEnds(2, st0, r.v, Snapshot());
      }
    }

    /** The part of expcond from its `?` on. */
    method ThenOperand(cval: intmax) returns (r: Signal)
      requires Valid(Snapshot()) && curtok == Ques
      modifies this
      ensures Does(r, Tail(2, cval, old(Snapshot())), Snapshot(), stack, old(stack))
      decreases MAX_EXPR_RECURSION_LEVEL - |stack|, Left(Snapshot()), 2
    {
      hide Level, ReadTok, Left, Valid, Keeps, Tail, CondElse;
      CondThen(cval, Snapshot());
      if cval == 0 {
        noeval := noeval + 1;
      }
      r := ReadToken();
      if r.Error? {
        return;
      }
      if curtok == End || curtok == Col {
        return Error(ExpressionExpected);
      }
      r := ExpComma();
      if r.Error? {
        return;
      }
      var val1 := r.v;
      if cval == 0 {
        noeval := noeval - 1;
      }
      if curtok != Col {
        return Error(ColonExpected);
      }
      r := ElseOperand(cval, val1);
    }

    /** The part of expcond from its `:` on. */
    method ElseOperand(cval: intmax, val1: intmax) returns (r: Signal)
      requires Valid(Snapshot()) && curtok == Col
      modifies this
      ensures Does(r, CondElse(cval, val1, old(Snapshot())), Snapshot(), stack, old(stack))
      decreases MAX_EXPR_RECURSION_LEVEL - |stack|, Left(Snapshot()), 2
    {
      hide Level, ReadTok, Left, CondElse;
      CondElseUnfolds(cval, val1, Snapshot());
      if cval != 0 {
        noeval := noeval + 1;
      }
      r := ReadToken();
      if r.Error? {
        return;
      }
      if curtok == End {
        return Error(ExpressionExpected);
      }
      r := ExpCond();
      if r.Error? {
        return;
      }
      if cval != 0 {
        noeval := noeval - 1;
        r := Value(val1);
      }
      lasttok := Cond;
    }

    /** explor */
    method ExpLor() returns (r: Signal)
      requires Valid(Snapshot())
      modifies this
      ensures Does(r, Level(3, old(Snapshot())), Snapshot(), stack, old(stack))
      decreases MAX_EXPR_RECURSION_LEVEL - |stack|, Left(Snapshot()), 18
    {
      hide Level, ReadTok, Left, Valid, Keeps, Reached;
      ghost var st0 := Snapshot();
      LevelStarts(3, st0);
      r := ExpLand();
      if r.Error? {
        return;
      }
      while curtok == LOr
        invariant r.Value? && Valid(Snapshot()) && Reached(3, st0, r.v, Snapshot()) && stack == old(stack)
                  && Left(Snapshot()) <= Left(st0)
        decreases Left(Snapshot())
      {
        r := ExpLorTurn(r.v, st0);
        if r.Error? {
          return;
        }
      }
      LevelEnds(3, st0, r.v, Snapshot());
    }

    /** One turn of the loop of explor. */
    method ExpLorTurn(val1: intmax, ghost st0: State) returns (r: Signal)
      requires Valid(Snapshot()) && Reached(3, st0, val1, Snapshot()) && curtok == LOr
      modifies this
      ensures r.Error? ==> Does(r, Level(3, st0), Snapshot(), stack, stack)
      ensures r.Value? ==>
                Valid(Snapshot()) && Reached(3, st0, r.v, Snapshot()) && stack == old(stack)
                && Left(Snapshot()) < old(Left(Snapshot()))
      decreases MAX_EXPR_RECURSION_LEVEL - |stack|, Left(Snapshot()), 17
    {
      hide Level, ReadTok, Left, Valid, Keeps, Reached;
      var set_noeval := val1 != 0;
      LogicalTurn(3, st0, val1, Snapshot());
      if set_noeval {
        noeval := noeval + 1;
      }
      r := ReadToken();
      if r.Error? {
        return;
      }
      r := ExpLand();
      if r.Error? {
        return;
      }
      if set_noeval {
        noeval := noeval - 1;
      }
      r := Value(Truth(val1 != 0 || r.v != 0));
      lasttok := LOr;
    }

    /** expland */
    method ExpLand() returns (r: Signal)
      requires Valid(Snapshot())
      modifies this
      ensures Does(r, Level(4, old(Snapshot())), Snapshot(), stack, old(stack))
      decreases MAX_EXPR_RECURSION_LEVEL - |stack|, Left(Snapshot()), 17
    {
      hide Level, ReadTok, Left, Valid, Keeps, Reached;
      ghost var st0 := Snapshot();
      LevelStarts(4, st0);
      r := ExpBor();
      if r.Error? {
        return;
      }
      while curtok == LAnd
        invariant r.Value? && Valid(Snapshot()) && Reached(4, st0, r.v, Snapshot()) && stack == old(stack)
                  && Left(Snapshot()) <= Left(st0)
        decreases Left(Snapshot())
      {
        r := ExpLandTurn(r.v, st0);
        if r.Error? {
          return;
        }
      }
      LevelEnds(4, st0, r.v, Snapshot());
    }

    /** One turn of the loop of expland. */
    method ExpLandTurn(val1: intmax, ghost st0: State) returns (r: Signal)
      requires Valid(Snapshot()) && Reached(4, st0, val1, Snapshot()) && curtok == LAnd
      modifies this
      ensures r.Error? ==> Does(r, Level(4, st0), Snapshot(), stack, stack)
      ensures r.Value? ==>
                Valid(Snapshot()) && Reached(4, st0, r.v, Snapshot()) && stack == old(stack)
                && Left(Snapshot()) < old(Left(Snapshot()))
      decreases MAX_EXPR_RECURSION_LEVEL - |stack|, Left(Snapshot()), 16
    {
      hide Level, ReadTok, Left, Valid, Keeps, Reached;
      var set_noeval := val1 == 0;
      LogicalTurn(4, st0, val1, Snapshot());
      if set_noeval {
        noeval := noeval + 1;
      }
      r := ReadToken();
      if r.Error? {
        return;
      }
      r := ExpBor();
      if r.Error? {
        return;
      }
      if set_noeval {
        noeval := noeval - 1;
      }
      r := Value(Truth(val1 != 0 && r.v != 0));
      lasttok := LAnd;
    }

    /** expbor */
    method ExpBor() returns (r: Signal)
      requires Valid(Snapshot())
      modifies this
      ensures Does(r, Level(5, old(Snapshot())), Snapshot(), stack, old(stack))
      decreases MAX_EXPR_RECURSION_LEVEL - |stack|, Left(Snapshot()), 16
    {
      hide Level, ReadTok, Left, Valid, Keeps, Reached, Apply, BitOp;
      ghost var st0 := Snapshot();
      LevelStarts(5, st0);
      r := ExpBxor();
      if r.Error? {
        return;
      }
      while curtok == BOr
        invariant r.Value? && Valid(Snapshot()) && Reached(5, st0, r.v, Snapshot()) && stack == old(stack)
                  && Left(Snapshot()) <= Left(st0)
        decreases Left(Snapshot())
      {
        var val1 := r.v;
        BinaryTurn(5, st0, val1, Snapshot());
        r := ReadToken();
        if r.Error? {
          return;
        }
        r := ExpBxor();
        if r.Error? {
          return;
        }
        ExpBorApplies(val1, r.v);
        r := Value(BitOp((x: bool, y: bool) => x || y, val1, r.v));
        lasttok := Num;
      }
      LevelEnds(5, st0, r.v, Snapshot());
    }

    /** expbxor */
    method ExpBxor() returns (r: Signal)
      requires Valid(Snapshot())
      modifies this
      ensures Does(r, Level(6, old(Snapshot())), Snapshot(), stack, old(stack))
      decreases MAX_EXPR_RECURSION_LEVEL - |stack|, Left(Snapshot()), 15
    {
      hide Level, ReadTok, Left, Valid, Keeps, Reached, Apply, BitOp;
      ghost var st0 := Snapshot();
      LevelStarts(6, st0);
      r := ExpBand();
      if r.Error? {
        return;
      }
      while curtok == BXor
        invariant r.Value? && Valid(Snapshot()) && Reached(6, st0, r.v, Snapshot()) && stack == old(stack)
                  && Left(Snapshot()) <= Left(st0)
        decreases Left(Snapshot())
      {
        var val1 := r.v;
        BinaryTurn(6, st0, val1, Snapshot());
        r := ReadToken();
        if r.Error? {
          return;
        }
        r := ExpBand();
        if r.Error? {
          return;
        }
        ExpBxorApplies(val1, r.v);
        r := Value(BitOp((x: bool, y: bool) => x != y, val1, r.v));
        lasttok := Num;
      }
      LevelEnds(6, st0, r.v, Snapshot());
    }

    /** expband */
    method ExpBand() returns (r: Signal)
      requires Valid(Snapshot())
      modifies this
      ensures Does(r, Level(7, old(Snapshot())), Snapshot(), stack, old(stack))
      decreases MAX_EXPR_RECURSION_LEVEL - |stack|, Left(Snapshot()), 14
    {
      hide Level, ReadTok, Left, Valid, Keeps, Reached, Apply, BitOp;
      ghost var st0 := Snapshot();
      LevelStarts(7, st0);
      r := Exp5();
      if r.Error? {
        return;
      }
      while curtok == BAnd
        invariant r.Value? && Valid(Snapshot()) && Reached(7, st0, r.v, Snapshot()) && stack == old(stack)
                  && Left(Snapshot()) <= Left(st0)
        decreases Left(Snapshot())
      {
        var val1 := r.v;
        BinaryTurn(7, st0, val1, Snapshot());
        r := ReadToken();
        if r.Error? {
          return;
        }
        r := Exp5();
        if r.Error? {
          return;
        }
        ExpBandApplies(val1, r.v);
        r := Value(BitOp((x: bool, y: bool) => x && y, val1, r.v));
        lasttok := Num;
      }
      LevelEnds(7, st0, r.v, Snapshot());
    }

    /** exp5 */
    method Exp5() returns (r: Signal)
      requires Valid(Snapshot())
      modifies this
      ensures Does(r, Level(8, old(Snapshot())), Snapshot(), stack, old(stack))
      decreases MAX_EXPR_RECURSION_LEVEL - |stack|, Left(Snapshot()), 13
    {
      hide Level, ReadTok, Left, Valid, Keeps, Reached, Apply;
      ghost var st0 := Snapshot();
      LevelStarts(8, st0);
      r := Exp4();
      if r.Error? {
        return;
      }
      while curtok == EqEq || curtok == Neq
        invariant r.Value? && Valid(Snapshot()) && Reached(8, st0, r.v, Snapshot()) && stack == old(stack)
                  && Left(Snapshot()) <= Left(st0)
        decreases Left(Snapshot())
      {
        var op, val1 := curtok, r.v;
        BinaryTurn(8, st0, val1, Snapshot());
        r := ReadToken();
        if r.Error? {
          return;
        }
        r := Exp4();
        if r.Error? {
          return;
        }
        Exp5Applies(op, val1, r.v);
        r := Value(Truth(if op == EqEq then val1 == r.v else val1 != r.v));
        lasttok := Num;
      }
      LevelEnds(8, st0, r.v, Snapshot());
    }

    /** exp4 */
    method Exp4() returns (r: Signal)
      requires Valid(Snapshot())
      modifies this
      ensures Does(r, Level(9, old(Snapshot())), Snapshot(), stack, old(stack))
      decreases MAX_EXPR_RECURSION_LEVEL - |stack|, Left(Snapshot()), 12
    {
      hide Level, ReadTok, Left, Valid, Keeps, Reached, Apply;
      ghost var st0 := Snapshot();
      LevelStarts(9, st0);
      r := ExpShift();
      if r.Error? {
        return;
      }
      while curtok == Leq || curtok == Geq || curtok == Lt || curtok == Gt
        invariant r.Value? && Valid(Snapshot()) && Reached(9, st0, r.v, Snapshot()) && stack == old(stack)
                  && Left(Snapshot()) <= Left(st0)
        decreases Left(Snapshot())
      {
        var op, val1 := curtok, r.v;
        BinaryTurn(9, st0, val1, Snapshot());
        r := ReadToken();
        if r.Error? {
          return;
        }
        r := ExpShift();
        if r.Error? {
          return;
        }
        Exp4Applies(op, val1, r.v);
        r := Value(Truth(if op == Leq then val1 <= r.v else if op == Geq then val1 >= r.v
            else if op == Lt then val1 < r.v else val1 > r.v));
        lasttok := Num;
      }
      LevelEnds(9, st0, r.v, Snapshot());
    }

    /** expshift */
    method ExpShift() returns (r: Signal)
      requires Valid(Snapshot())
      modifies this
      ensures Does(r, Level(10, old(Snapshot())), Snapshot(), stack, old(stack))
      decreases MAX_EXPR_RECURSION_LEVEL - |stack|, Left(Snapshot()), 11
    {
      hide Level, ReadTok, Left, Valid, Keeps, Reached, Apply, Wrap, Power2;
      ghost var st0 := Snapshot();
      LevelStarts(10, st0);
      r := Exp3();
      if r.Error? {
        return;
      }
      while curtok == Lsh || curtok == Rsh
        invariant r.Value? && Valid(Snapshot()) && Reached(10, st0, r.v, Snapshot()) && stack == old(stack)
                  && Left(Snapshot()) <= Left(st0)
        decreases Left(Snapshot())
      {
        var op, val1 := curtok, r.v;
        BinaryTurn(10, st0, val1, Snapshot());
        r := ReadToken();
        if r.Error? {
          return;
        }
        r := Exp3();
        if r.Error? {
          return;
        }
        ExpShiftApplies(op, val1, r.v);
        r := Value(if op == Lsh then Wrap(val1 * Power2(r.v % 64)) else Wrap(val1 / Power2(r.v % 64)));
        lasttok := Num;
      }
      LevelEnds(10, st0, r.v, Snapshot());
    }

    /** exp3 */
    method Exp3() returns (r: Signal)
      requires Valid(Snapshot())
      modifies this
      ensures Does(r, Level(11, old(Snapshot())), Snapshot(), stack, old(stack))
      decreases MAX_EXPR_RECURSION_LEVEL - |stack|, Left(Snapshot()), 10
    {
      hide Level, ReadTok, Left, Valid, Keeps, Reached, Apply, Wrap;
      ghost var st0 := Snapshot();
      LevelStarts(11, st0);
      r := ExpMulDiv();
      if r.Error? {
        return;
      }
      while curtok == Plus || curtok == Minus
        invariant r.Value? && Valid(Snapshot()) && Reached(11, st0, r.v, Snapshot()) && stack == old(stack)
                  && Left(Snapshot()) <= Left(st0)
        decreases Left(Snapshot())
      {
        r := Exp3Turn(r.v, st0);
        if r.Error? {
          return;
        }
      }
      LevelEnds(11, st0, r.v, Snapshot());
    }

    /** One turn of the loop of exp3. */
    method Exp3Turn(val1: intmax, ghost st0: State) returns (r: Signal)
      requires Valid(Snapshot()) && Reached(11, st0, val1, Snapshot()) && (curtok == Plus || curtok == Minus)
      modifies this
      ensures r.Error? ==> Does(r, Level(11, st0), Snapshot(), stack, stack)
      ensures r.Value? ==>
                Valid(Snapshot()) && Reached(11, st0, r.v, Snapshot()) && stack == old(stack)
                && Left(Snapshot()) < old(Left(Snapshot()))
      decreases MAX_EXPR_RECURSION_LEVEL - |stack|, Left(Snapshot()), 9
    {
      hide Level, ReadTok, Left, Valid, Keeps, Reached, Apply, Wrap;
      var op := curtok;
      BinaryTurn(11, st0, val1, Snapshot());
      r := ReadToken();
      if r.Error? {
        return;
      }
      r := ExpMulDiv();
      if r.Error? {
        return;
      }
      Exp3Applies(op, val1, r.v);
      r := Value(Wrap(if op == Plus then val1 + r.v else val1 - r.v));
      lasttok := Num;
    }

    /** expmuldiv: no quotient overflows */
    method ExpMulDiv() returns (r: Signal)
      requires Valid(Snapshot())
      modifies this
      ensures Does(r, Level(12, old(Snapshot())), Snapshot(), stack, old(stack))
      decreases MAX_EXPR_RECURSION_LEVEL - |stack|, Left(Snapshot()), 9
    {
      hide Level, ReadTok, Left, Valid, Keeps, Reached, Apply, Quotient;
      ghost var st0 := Snapshot();
      LevelStarts(12, st0);
      r := ExpPower();
      if r.Error? {
        return;
      }
      while curtok == Mul || curtok == Div || curtok == Mod
        invariant r.Value? && Valid(Snapshot()) && Reached(12, st0, r.v, Snapshot()) && stack == old(stack)
                  && Left(Snapshot()) <= Left(st0)
        decreases Left(Snapshot())
      {
        r := ExpMulDivTurn(r.v, st0);
        if r.Error? {
          return;
        }
      }
      LevelEnds(12, st0, r.v, Snapshot());
    }

    /** One turn of the loop of expmuldiv, which INTMAX_MIN % -1 leaves early. */
    method ExpMulDivTurn(val1: intmax, ghost st0: State) returns (r: Signal)
      requires Valid(Snapshot()) && Reached(12, st0, val1, Snapshot()) && curtok in {Mul, Div, Mod}
      modifies this
      ensures r.Error? ==> Does(r, Level(12, st0), Snapshot(), stack, stack)
      ensures r.Value? ==>
                Valid(Snapshot()) && Reached(12, st0, r.v, Snapshot()) && stack == old(stack)
                && Left(Snapshot()) < old(Left(Snapshot()))
      decreases MAX_EXPR_RECURSION_LEVEL - |stack|, Left(Snapshot()), 8
    {
      hide Level, ReadTok, Left, Valid, Keeps, Reached, Apply, Quotient;
      var op := curtok;
      MulDivTurn(st0, val1, Snapshot());
      r := ReadToken();
      if r.Error? {
        return;
      }
      r := ExpPower();
      if r.Error? {
        return;
      }
      var val2 := r.v;
      if op == Mul {
        MultiplicationIs(val1, val2);
        r := Value(Times(val1, val2));
      } else {
        if val2 == 0 {
          if noeval == 0 {
            return Error(DivisionByZero);
          }
          val2 := 1;
        }
        DivisionInRange(op, val1, val2);
        if op == Mod && val1 == INTMAX_MIN && val2 == -1 {
          return Value(0);
        } else if op == Div && val1 == INTMAX_MIN && val2 == -1 {
          val2 := 1;
        }
        r := Value(Quotient(op, val1, val2));
      }
      lasttok := Num;
    }

    /** exppower */
    method ExpPower() returns (r: Signal)
      requires Valid(Snapshot())
      modifies this
      ensures Does(r, Level(13, old(Snapshot())), Snapshot(), stack, old(stack))
      decreases MAX_EXPR_RECURSION_LEVEL - |stack|, Left(Snapshot()), 8
    {
      hide Level, ReadTok, Left, Valid, Keeps, Reached, IPow, Pow, Wrap;
      ghost var st0 := Snapshot();
      LevelStarts(13, st0);
      r := Exp1();
      if r.Error? {
        return;
      }
      while curtok == Tok.Power
        invariant r.Value? && Valid(Snapshot()) && Reached(13, st0, r.v, Snapshot()) && stack == old(stack)
                  && Left(Snapshot()) <= Left(st0)
        decreases Left(Snapshot())
      {
        var done;
        r, done := ExpPowerTurn(r.v, st0);
        if done {
          return;
        }
      }
      LevelEnds(13, st0, r.v, Snapshot());
    }

    /** One turn of the loop of exppower; `done` tells whether it returns from there. */
    method ExpPowerTurn(val1: intmax, ghost st0: State) returns (r: Signal, done: bool)
      requires Valid(Snapshot()) && Reached(13, st0, val1, Snapshot()) && curtok == Tok.Power
      modifies this
      ensures done ==> Does(r, Level(13, st0), Snapshot(), stack, old(stack))
      ensures !done ==>
                r.Value? && Valid(Snapshot()) && Reached(13, st0, r.v, Snapshot()) && stack == old(stack)
                && Left(Snapshot()) < old(Left(Snapshot()))
      decreases MAX_EXPR_RECURSION_LEVEL - |stack|, Left(Snapshot()), 7
    {
      hide Level, ReadTok, Left, Valid, Keeps, Reached, IPow, Pow, Wrap;
      PowerTurn(st0, val1, Snapshot());
      r := ReadToken();
      if r.Error? {
        return r, true;
      }
      r := ExpPower();
      if r.Error? {
        return r, true;
      }
      lasttok := Num;
      if r.v == 0 {
        return Value(1), true;
      }
      if r.v < 0 {
        return Error(NegativeExponent), true;
      }
      var power := IntegerPower(val1, r.v);
      IPowIs(val1, r.v);
      return Value(power), false;
    }

    /** exp1 */
    method Exp1() returns (r: Signal)
      requires Valid(Snapshot())
      modifies this
      ensures Does(r, Level(14, old(Snapshot())), Snapshot(), stack, old(stack))
      decreases MAX_EXPR_RECURSION_LEVEL - |stack|, Left(Snapshot()), 7
    {
      hide Level, ReadTok, Left, Keeps;
      ghost var st0 := Snapshot();
      UnaryUnfolds(st0);
      if curtok == Not || curtok == BNot || curtok == Minus || curtok == Plus {
        var op := curtok;
        r := ReadToken();
        if r.Error? {
          return;
        }
        r := Exp1();
        if r.Error? {
          return;
        }
        r := Value(if op == Not then Truth(r.v == 0)
                   else if op == BNot then Wrap(-(r.v as int) - 1)
                   else if op == Minus then Wrap(-(r.v as int))
                   else r.v);
        lasttok := Num;
      } else {
        r := Exp0();
      }
    }

    /** exp0 */
    method Exp0() returns (r: Signal)
      requires Valid(Snapshot())
      modifies this
      ensures Does(r, Level(15, old(Snapshot())), Snapshot(), stack, old(stack))
      decreases MAX_EXPR_RECURSION_LEVEL - |stack|, Left(Snapshot()), 6
    {
      hide Level, ReadTok, Left, Keeps, ReadAfter, Stepped, BindUnlessSkipped;
      ghost var st0 := Snapshot();
      if curtok == PreInc || curtok == PreDec {
        r := PreStepOperand();
      } else if curtok == LPar {
        ParenUnfolds(st0);
        r := ReadToken();
        if r.Error? {
          return;
        }
        r := ExpComma();
        if r.Error? {
          return;
        }
        if curtok != RPar {
          return Error(MissingParen);
        }
        r := ReadOn(r.v);
      } else if curtok == Num {
        PrimaryCases(st0);
        r := ReadOn(tokval);
      } else if curtok == Str {
        r := VariableOperand();
      } else {
        OtherTokens(st0);
        r := Error(OperandExpected);
      }
    }

    /** The token after an operand that has the value val. */
    method ReadOn(val: intmax) returns (r: Signal)
      requires Valid(Snapshot())
      modifies this
      ensures Does(r, ReadAfter(val, old(Snapshot())), Snapshot(), stack, old(stack))
      decreases MAX_EXPR_RECURSION_LEVEL - |stack|, Left(Snapshot()), 2
    {
      hide ReadTok, ReadAfter, Left;
      ReadAfterUnfolds(val, Snapshot());
      r := ReadToken();
      if r.Value? {
        r := Value(val);
      }
    }

    /** What `++` and `--` store, unless evaluation is suppressed. */
    method BindStepped(v: intmax)
      modifies this`variables
      ensures variables == BindUnlessSkipped(old(Snapshot()), tokstr, v)
    {
      if noeval == 0 {
        BindVariable(tokstr, Itos(v));
      }
    }

    /** The part of exp0 for `++name` and `--name`. */
    method PreStepOperand() returns (r: Signal)
      requires Valid(Snapshot()) && (curtok == PreInc || curtok == PreDec)
      modifies this
      ensures Does(r, Level(15, old(Snapshot())), Snapshot(), stack, old(stack))
      decreases MAX_EXPR_RECURSION_LEVEL - |stack|, Left(Snapshot()), 3
    {
      hide Level, ReadTok, Left, Keeps, ReadAfter, Stepped, BindUnlessSkipped;
      PreStepUnfolds(Snapshot());
      var stok := curtok;
      lasttok := curtok;
      r := ReadToken();
      if r.Error? {
        return;
      }
      if curtok != Str {
        return Error(LvalueRequired);
      }
      var v2 := Stepped(stok, tokval);
      BindStepped(v2);
      curtok := Num;
      SameLeft(ReadTok(old(Snapshot()).(lasttok := stok)).st, Snapshot());
      r := ReadOn(v2);
    }

    /** The part of exp0 for a variable: one token ahead is read with evaluation suppressed, and read again
        unless it is `++` or `--`. */
    method VariableOperand() returns (r: Signal)
      requires Valid(Snapshot()) && curtok == Str
      modifies this
      ensures Does(r, Level(15, old(Snapshot())), Snapshot(), stack, old(stack))
      decreases MAX_EXPR_RECURSION_LEVEL - |stack|, Left(Snapshot()), 3
    {
      hide Level, ReadTok, Left, Keeps, ReadAfter, Stepped, BindUnlessSkipped;
      ghost var st0 := Snapshot();
      VariableUnfolds(st0);
      var val, ec := tokval, Save();
      tokstr, noeval := None, 1;
      r := ReadToken();
      if r.Error? {
        return;
      }
      var stok := curtok;
      if stok == PostInc || stok == PostDec {
        tokstr, noeval, lasttok, curtok := ec.tokstr, ec.noeval, Str, Num;
        BindStepped(Stepped(stok, val));
      } else {
        Restore(ec);
      }
      assert Snapshot() == VariableNext(st0, ReadTok(st0.(noeval := 1, tokstr := None)).st);
      hide VariableNext;
      r := ReadOn(val);
    }
  }
}
