/** What the evaluator of expr.c computes, as functions on its whole state. The levels of the
    recursive descent are numbered: 0 expcomma, 1 expassign, 2 expcond, 3 explor, 4 expland,
    5 expbor, 6 expbxor, 7 expband, 8 exp5, 9 exp4, 10 expshift, 11 exp3, 12 expmuldiv,
    13 exppower, 14 exp1, 15 exp0. Every level up to 13 reads an operand of the next level and
    then runs its own tail. */
module ArithEval {
  import opened Numbers
  import opened ArithTokens
  import opened Strings
  import opened Wrappers

  const MAX_EXPR_RECURSION_LEVEL := 1024

  /** The text of every variable that has a value. */
  type Store = map<string, string>

  /** The static variables of expr.c, and the shell variables. OpAssign carries assigntok. */
  datatype State = State(
    text: string, tp: nat, curtok: Tok, lasttok: Tok, tokstr: Option<string>, tokval: intmax,
    noeval: nat, depth: nat, store: Store)

  datatype Result = Ok(value: intmax, st: State) | Fail(error: EvalError, store: Store)

  /** A variable's value, or an error in the expression it holds. */
  datatype Looked = Found(value: intmax, store: Store) | Broken(error: EvalError, store: Store)

  predicate Valid(st: State) {
    st.tp <= |st.text| && st.depth <= MAX_EXPR_RECURSION_LEVEL
  }

  /** A measure of what is left to read. */
  function Left(st: State): nat
    requires Valid(st)
  {
    2 * (|st.text| - st.tp) + if st.curtok == End then 0 else 1
  }

  /** What every routine keeps: the expression and the counters of its caller, and, while evaluation
      is suppressed, every variable; no division by zero is reported then either. */
  predicate Keeps(st: State, r: Result)
    requires Valid(st)
  {
    && (r.Ok? ==> Valid(r.st) && r.st.text == st.text && r.st.depth == st.depth && r.st.noeval == st.noeval
                  && r.st.tp >= st.tp && Left(r.st) <= Left(st))
    && (st.noeval > 0 ==> (if r.Ok? then r.st.store else r.store) == st.store)
    && (st.noeval > 0 && r.Fail? ==> r.error != DivisionByZero)
  }

  function Bind(store: Store, name: Option<string>, value: intmax): Store {
    if name.None? || name.value == "" then store else store[name.value := Itos(value)]
  }

  /** expr_streval: 0 while evaluation is suppressed and for an unset or empty variable, otherwise the
      value of the expression the variable holds. */
  function StrEval(name: string, noeval: nat, depth: nat, store: Store): (r: Looked)
    requires depth <= MAX_EXPR_RECURSION_LEVEL
    ensures noeval > 0 ==> r == Found(0, store)
    decreases MAX_EXPR_RECURSION_LEVEL - depth, 0, 1
  {
    if noeval > 0 || name !in store || store[name] == "" then Found(0, store)
    else SubExpr(store[name], depth, store)
  }

  function SubExpr(text: string, depth: nat, store: Store): (r: Looked)
    requires depth <= MAX_EXPR_RECURSION_LEVEL
    decreases MAX_EXPR_RECURSION_LEVEL - depth, 0, 0
  {
    if SkipBlank(text, 0) == |text| then Found(0, store)
    else if depth >= MAX_EXPR_RECURSION_LEVEL then Broken(RecursionLevel, store)
    else
      match ReadTok(State(text, 0, End, End, None, 0, 0, depth + 1, store))
      case Fail(e, s) => Broken(e, s)
      case Ok(_, st) =>
        match Level(0, st)
        case Fail(e, s) => Broken(e, s)
        case Ok(v, st') => if st'.curtok != End then Broken(SyntaxError, st'.store) else Found(v, st'.store)
  }

  /** readtok; the value of the result is not used. */
  function ReadTok(st: State): (r: Result)
    requires Valid(st)
    ensures Keeps(st, r)
    ensures r.Ok? && r.st.curtok != End ==> r.st.tp > st.tp
    decreases MAX_EXPR_RECURSION_LEVEL - st.depth, Left(st), 0
  {
    var cp := SkipBlank(st.text, st.tp);
    if cp == |st.text| then Ok(0, st.(lasttok := st.curtok, curtok := End, tp := cp))
    else if NameStart(st.text[cp]) then
      var e := NameEnd(st.text, cp);
      var name := st.text[cp..e];
      match ReadTok(st.(tp := e, noeval := 1, curtok := Str, tokstr := None))
      case Fail(error, _) => Fail(error, st.store)
      case Ok(_, peek) =>
        var value := if st.lasttok == PreInc || st.lasttok == PreDec || peek.curtok != Eq
                     then StrEval(name, st.noeval, st.depth, st.store) else Found(0, st.store);
        match value
        case Broken(error, store) => Fail(error, store)
        case Found(v, store) =>
          Ok(0, st.(tp := e, lasttok := st.curtok, curtok := Str, tokstr := Some(name), tokval := v, store := store))
    else if IsDigit(st.text[cp]) then
      var e := NumEnd(st.text, cp);
      match StrLong(st.text[cp..e])
      case NoConstant => Fail(BadNumber, st.store)
      case Constant(v) => Ok(0, st.(tp := e, lasttok := st.curtok, curtok := Num, tokval := v))
    else
      match LexOperator(st.text, cp, st.curtok, st.lasttok)
      case LexError(error) => Fail(error, st.store)
      case Lexed(tok, length) => Ok(0, st.(tp := cp + length, lasttok := st.curtok, curtok := tok))
  }

  function Level(k: nat, st: State): (r: Result)
    requires Valid(st) && k <= 15
    ensures Keeps(st, r)
    decreases MAX_EXPR_RECURSION_LEVEL - st.depth, Left(st), 21 - k
  {
    if k == 15 then Exp0(st)
    else if k == 14 then Exp1(st)
    else
      var r := Level(k + 1, st);
      if r.Fail? then r else Tail(k, r.value, r.st)
  }

  /** The rest of a level, after its first operand. */
  function Tail(k: nat, v: intmax, st: State): (r: Result)
    requires Valid(st) && k <= 13
    ensures Keeps(st, r)
    decreases MAX_EXPR_RECURSION_LEVEL - st.depth, Left(st), 4
  {
    if k == 0 then TailComma(v, st)
    else if k == 1 then TailAssign(v, st)
    else if k == 2 then TailCond(v, st)
    else if k <= 4 then TailLogical(k, v, st)
    else if k <= 12 then TailBinary(k, v, st)
    else TailPower(v, st)
  }

  /** The next token, and from there an operand of level k. */
  function Operand(k: nat, st: State): (r: Result)
    requires Valid(st) && k <= 15 && st.curtok != End
    ensures Keeps(st, r)
    ensures r.Ok? ==> Left(r.st) < Left(st)
    decreases MAX_EXPR_RECURSION_LEVEL - st.depth, Left(st), 1
  {
    var r := ReadTok(st);
    if r.Fail? then r else Level(k, r.st)
  }

  function TailComma(v: intmax, st: State): (r: Result)
    requires Valid(st)
    ensures Keeps(st, r)
    decreases MAX_EXPR_RECURSION_LEVEL - st.depth, Left(st), 3
  {
    if st.curtok != Comma then Ok(v, st)
    else
      var r := Operand(1, st);
      if r.Fail? then r else TailComma(r.value, r.st)
  }

  /** The value that an assignment stores; None is a division by zero. */
  function Assigned(tok: Tok, noeval: nat, current: intmax, value: intmax): Option<intmax> {
    if !tok.OpAssign? then Some(value)
    else if (tok.op == Div || tok.op == Mod) && value == 0 then
      if noeval == 0 then None else Some(Apply(tok.op, current, 1))
    else Some(Apply(tok.op, current, value))
  }

  function TailAssign(v: intmax, st: State): (r: Result)
    requires Valid(st)
    ensures Keeps(st, r)
    decreases MAX_EXPR_RECURSION_LEVEL - st.depth, Left(st), 3
  {
    if st.curtok != Eq && !st.curtok.OpAssign? then Ok(v, st)
    else if st.lasttok != Str then Fail(NotAVariable, st.store)
    else if st.tokstr.None? then Fail(SyntaxError, st.store)
    else
      var r := Operand(1, st);
      if r.Fail? then r
      else
        match Assigned(st.curtok, st.noeval, v, r.value)
        case None => Fail(DivisionByZero, r.st.store)
        case Some(value) =>
          Ok(value, r.st.(tokstr := None, store := if st.noeval == 0 then Bind(r.st.store, st.tokstr, value)
              else r.st.store))
  }

  function TailCond(v: intmax, st: State): (r: Result)
    requires Valid(st)
    ensures Keeps(st, r)
    decreases MAX_EXPR_RECURSION_LEVEL - st.depth, Left(st), 3
  {
    if st.curtok != Ques then Ok(v, st)
    else
      var r0 := ReadTok(st.(noeval := if v == 0 then st.noeval + 1 else st.noeval));
      if r0.Fail? then r0
      else if r0.st.curtok == End || r0.st.curtok == Col then Fail(ExpressionExpected, r0.st.store)
      else
        var r1 := Level(0, r0.st);
        if r1.Fail? then r1
        else if r1.st.curtok != Col then Fail(ColonExpected, r1.st.store)
        else CondElse(v, r1.value, r1.st.(noeval := st.noeval))
  }

  /** The part of expcond from the `:` on; v1 is the value of the operand before it. */
  function CondElse(v: intmax, v1: intmax, st: State): (r: Result)
    requires Valid(st) && st.curtok == Col
    ensures Keeps(st, r)
    decreases MAX_EXPR_RECURSION_LEVEL - st.depth, Left(st), 3
  {
    var r2 := ReadTok(st.(noeval := if v != 0 then st.noeval + 1 else st.noeval));
    if r2.Fail? then r2
    else if r2.st.curtok == End then Fail(ExpressionExpected, r2.st.store)
    else
      var r3 := Level(2, r2.st);
      if r3.Fail? then r3
      else Ok(if v != 0 then v1 else r3.value, r3.st.(noeval := st.noeval, lasttok := Cond))
  }

  function LogicalTok(k: nat): Tok {
    if k == 3 then LOr else LAnd
  }

  /** A left operand that decides the result of `||` (level 3) or `&&` (level 4). */
  predicate Decides(k: nat, v: intmax) {
    if k == 3 then v != 0 else v == 0
  }

  function Logical(k: nat, a: intmax, b: intmax): intmax {
    Truth(if k == 3 then a != 0 || b != 0 else a != 0 && b != 0)
  }

  function TailLogical(k: nat, v: intmax, st: State): (r: Result)
    requires Valid(st) && 3 <= k <= 4
    ensures Keeps(st, r)
    decreases MAX_EXPR_RECURSION_LEVEL - st.depth, Left(st), 3
  {
    if st.curtok != LogicalTok(k) then Ok(v, st)
    else
      var r := Operand(k + 1, st.(noeval := if Decides(k, v) then st.noeval + 1 else st.noeval));
      if r.Fail? then r
      else TailLogical(k, Logical(k, v, r.value), r.st.(noeval := st.noeval, lasttok := LogicalTok(k)))
  }

  predicate BinaryAt(k: nat, tok: Tok) {
    match k
    case 5 => tok == BOr
    case 6 => tok == BXor
    case 7 => tok == BAnd
    case 8 => tok == EqEq || tok == Neq
    case 9 => tok == Leq || tok == Geq || tok == Lt || tok == Gt
    case 10 => tok == Lsh || tok == Rsh
    case 11 => tok == Plus || tok == Minus
    case 12 => tok == Mul || tok == Div || tok == Mod
    case _ => false
  }

  function TailBinary(k: nat, v: intmax, st: State): (r: Result)
    requires Valid(st)
    ensures Keeps(st, r)
    decreases MAX_EXPR_RECURSION_LEVEL - st.depth, Left(st), 3
  {
    if k > 12 || !BinaryAt(k, st.curtok) then Ok(v, st)
    else
      var op := st.curtok;
      var r := Operand(k + 1, st);
      if r.Fail? then r
      else
        var byZero := (op == Div || op == Mod) && r.value == 0;
        if byZero && st.noeval == 0 then Fail(DivisionByZero, r.st.store)
        else
          var divisor: intmax := if byZero then 1 else r.value;
          // INTMAX_MIN % -1 leaves the loop's body early, before lasttok is set
          var last := if op == Mod && v == INTMAX_MIN && divisor == -1 then r.st.lasttok else Num;
          TailBinary(k, Apply(op, v, divisor), r.st.(lasttok := last))
  }

  function TailPower(v: intmax, st: State): (r: Result)
    requires Valid(st)
    ensures Keeps(st, r)
    decreases MAX_EXPR_RECURSION_LEVEL - st.depth, Left(st), 3
  {
    if st.curtok != Power then Ok(v, st)
    else
      var r := Operand(13, st);
      if r.Fail? then r
      else if r.value == 0 then Ok(1, r.st.(lasttok := Num))
      else if r.value < 0 then Fail(NegativeExponent, r.st.store)
      else TailPower(IPow(v, r.value), r.st.(lasttok := Num))
  }

  function Unary(tok: Tok, v: intmax): intmax {
    match tok
    case Not => Truth(v == 0)
    case BNot => Wrap(-(v as int) - 1)
    case Minus => Wrap(-(v as int))
    case _ => v
  }

  predicate IsUnary(tok: Tok) {
    tok == Not || tok == BNot || tok == Minus || tok == Plus
  }

  function Exp1(st: State): (r: Result)
    requires Valid(st)
    ensures Keeps(st, r)
    decreases MAX_EXPR_RECURSION_LEVEL - st.depth, Left(st), 5
  {
    if !IsUnary(st.curtok) then Exp0(st)
    else
      var r := Operand(14, st);
      if r.Fail? then r else Ok(Unary(st.curtok, r.value), r.st.(lasttok := Num))
  }

  function Stepped(tok: Tok, v: intmax): intmax {
    Wrap(if tok == PreInc || tok == PostInc then v + 1 else v - 1)
  }

  function BindUnlessSkipped(st: State, name: Option<string>, v: intmax): Store {
    if st.noeval == 0 then Bind(st.store, name, v) else st.store
  }

  /** readtok, with the value that the operand already has. */
  function ReadAfter(v: intmax, st: State): (r: Result)
    requires Valid(st)
    ensures Keeps(st, r)
    decreases MAX_EXPR_RECURSION_LEVEL - st.depth, Left(st), 1
  {
    var r := ReadTok(st);
    if r.Fail? then r else Ok(v, r.st)
  }

  function Exp0(st: State): (r: Result)
    requires Valid(st)
    ensures Keeps(st, r)
    decreases MAX_EXPR_RECURSION_LEVEL - st.depth, Left(st), 4
  {
    match st.curtok
    case PreInc | PreDec => PreStep(st)
    case LPar =>
      var r := Operand(0, st);
      if r.Fail? then r
      else if r.st.curtok != RPar then Fail(MissingParen, r.st.store)
      else ReadAfter(r.value, r.st)
    case Num => ReadAfter(st.tokval, st)
    case Str => Variable(st)
    case _ => Fail(OperandExpected, st.store)
  }

  /** The part of exp0 for `++name` and `--name`. */
  function PreStep(st: State): (r: Result)
    requires Valid(st) && (st.curtok == PreInc || st.curtok == PreDec)
    ensures Keeps(st, r)
    decreases MAX_EXPR_RECURSION_LEVEL - st.depth, Left(st), 3
  {
    var r := ReadTok(st.(lasttok := st.curtok));
    if r.Fail? then r
    else if r.st.curtok != Str then Fail(LvalueRequired, r.st.store)
    else
      var v := Stepped(st.curtok, r.st.tokval);
      ReadAfter(v, r.st.(curtok := Num, store := BindUnlessSkipped(r.st, r.st.tokstr, v)))
  }

  /** The part of exp0 for a variable, which looks one token ahead for `++` and `--`. */
  function Variable(st: State): (r: Result)
    requires Valid(st) && st.curtok == Str
    ensures Keeps(st, r)
    decreases MAX_EXPR_RECURSION_LEVEL - st.depth, Left(st), 3
  {
    var ahead := ReadTok(st.(noeval := 1, tokstr := None));
    if ahead.Fail? then ahead
    else if ahead.st.curtok == PostInc || ahead.st.curtok == PostDec then
      var back := ahead.st.(tokstr := st.tokstr, noeval := st.noeval, lasttok := Str, curtok := Num);
      ReadAfter(st.tokval, back.(store := BindUnlessSkipped(back, st.tokstr, Stepped(ahead.st.curtok, st.tokval))))
    else ReadAfter(st.tokval, st)
  }
}
