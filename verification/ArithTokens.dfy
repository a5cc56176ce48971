/** Tokens and operators of arithmetic expressions (readtok, strlong and ipow of expr.c). The model
    is of a build without ARRAY_VARS: a `[` after a name is not part of it. */
module ArithTokens {
  import opened Numbers
  import opened Strings
  import opened Wrappers

  datatype Tok =
    | End | Num | Str
    | EqEq | Neq | Leq | Geq | LAnd | LOr | Lsh | Rsh | OpAssign(op: Tok) | Cond
    | Power | PreInc | PreDec | PostInc | PostDec
    | Eq | Gt | Lt | Plus | Minus | Mul | Div | Mod | Not | LPar | RPar | BAnd | BOr | BXor | BNot
    | Ques | Col | Comma

  datatype EvalError =
    | OperandExpected | InvalidOperator | LvalueRequired | NotAVariable | DivisionByZero | NegativeExponent
    | ExpressionExpected | ColonExpected | MissingParen | SyntaxError | RecursionLevel | BadNumber

  // ---------- characters ----------

  predicate IsBlank(c: char) {
    c == ' ' || c == '\t' || c == '\n'
  }

  predicate NameStart(c: char) {
    IsAlpha(c) || c == '_'
  }

  predicate NameChar(c: char) {
    NameStart(c) || IsDigit(c)
  }

  predicate NumChar(c: char) {
    NameChar(c) || c == '#' || c == '@'
  }

  function SkipBlank(s: string, i: nat): (e: nat)
    requires i <= |s|
    ensures i <= e <= |s|
    ensures e < |s| ==> !IsBlank(s[e])
    decreases |s| - i
  {
    if i < |s| && IsBlank(s[i]) then SkipBlank(s, i + 1) else i
  }

  function NameEnd(s: string, i: nat): (e: nat)
    requires i <= |s|
    ensures i <= e <= |s|
    ensures i < |s| && NameChar(s[i]) ==> e > i
    decreases |s| - i
  {
    if i < |s| && NameChar(s[i]) then NameEnd(s, i + 1) else i
  }

  function NumEnd(s: string, i: nat): (e: nat)
    requires i <= |s|
    ensures i <= e <= |s|
    ensures i < |s| && NumChar(s[i]) ==> e > i
    decreases |s| - i
  {
    if i < |s| && NumChar(s[i]) then NumEnd(s, i + 1) else i
  }

  // ---------- integer constants ----------

  /** The value of a digit in a base: letters count alike up to base 36. */
  function DigitIn(c: char, base: nat): (d: nat)
    requires NameChar(c) || c == '@'
  {
    if IsDigit(c) then DigitValue(c)
    else if 'a' <= c <= 'z' then (c - 'a') as nat + 10
    else if 'A' <= c <= 'Z' then (c - 'A') as nat + (if base <= 36 then 10 else 36)
    else if c == '@' then 62
    else 63
  }

  datatype Constant = Constant(value: intmax) | NoConstant

  /** The loop of strlong from position i; `found` tells whether a base has been given. */
  function StrLongFrom(s: string, i: nat, base: nat, found: bool, val: intmax): Constant
    requires i <= |s|
    decreases |s| - i
  {
    if i == |s| then Constant(val)
    else if s[i] == '#' then
      if found || val < 2 || val > 64 || !(NameChar(At(s, i + 1)) || At(s, i + 1) == '@') then NoConstant
      else StrLongFrom(s, i + 1, val, true, 0)
    else if NameChar(s[i]) || s[i] == '@' then
      if DigitIn(s[i], base) >= base then NoConstant
      else StrLongFrom(s, i + 1, base, found, Wrap(val * base + DigitIn(s[i], base)))
    else Constant(val)
  }

  function StrLong(s: string): Constant {
    if At(s, 0) != '0' then StrLongFrom(s, 0, 10, false, 0)
    else if |s| == 1 then Constant(0)
    else if s[1] == 'x' || s[1] == 'X' then StrLongFrom(s, 2, 16, true, 0)
    else StrLongFrom(s, 1, 8, true, 0)
  }

  // ---------- operators ----------

  function Power2(n: nat): (p: nat)
    ensures p > 0
  {
    if n == 0 then 1 else 2 * Power2(n - 1)
  }

  function Pow(base: int, exp: nat): int {
    if exp == 0 then 1 else base * Pow(base, exp - 1)
  }

  /** Bit by bit combination of two naturals, n bits of them. */
  function Bits(f: (bool, bool) -> bool, a: nat, b: nat, n: nat): nat {
    if n == 0 then 0
    else (if f(a % 2 == 1, b % 2 == 1) then 1 else 0) + 2 * Bits(f, a / 2, b / 2, n - 1)
  }

  function BitOp(f: (bool, bool) -> bool, a: intmax, b: intmax): intmax {
    Wrap(Bits(f, a % TWO_TO_THE_64, b % TWO_TO_THE_64, 64))
  }

  function Truth(b: bool): intmax {
    if b then 1 else 0
  }

  /** A binary operator of the levels from `|` to `*` on 64-bit values; the divisor is not 0. A shift
      count is taken modulo 64. */
  function Apply(op: Tok, a: intmax, b: intmax): intmax
    requires op == Div || op == Mod ==> b != 0
  {
    match op
    case BOr => BitOp((x: bool, y: bool) => x || y, a, b)
    case BXor => BitOp((x: bool, y: bool) => x != y, a, b)
    case BAnd => BitOp((x: bool, y: bool) => x && y, a, b)
    case EqEq => Truth(a == b)
    case Neq => Truth(a != b)
    case Leq => Truth(a <= b)
    case Geq => Truth(a >= b)
    case Lt => Truth(a < b)
    case Gt => Truth(a > b)
    case Lsh => Wrap(a * Power2(b % 64))
    case Rsh => Wrap(a / Power2(b % 64))
    case Plus => Wrap(a + b)
    case Minus => Wrap(a - b)
    case Mul => Wrap(a * b)
    case Div => Wrap(DivC(a, b))
    case Mod => Wrap(ModC(a, b))
    case _ => 0
  }

  /** base ** exp modulo 2 to the 64th, as a signed value. */
  function IPow(base: intmax, exp: nat): intmax {
    Wrap(Pow(base, exp))
  }

  // ---------- the operator part of readtok ----------

  datatype Lexed = Lexed(tok: Tok, length: nat) | LexError(error: EvalError)

  predicate IsAssignable(c: char) {
    c in {'*', '/', '%', '+', '-', '&', '^', '|'}
  }

  function SingleTok(c: char): Tok {
    match c
    case '=' => Eq case '>' => Gt case '<' => Lt case '+' => Plus case '-' => Minus case '*' => Mul
    case '/' => Div case '%' => Mod case '!' => Not case '(' => LPar case ')' => RPar case '&' => BAnd
    case '|' => BOr case '^' => BXor case '~' => BNot case '?' => Ques case ':' => Col case ',' => Comma
    case _ => End
  }

  /** The operator that the characters c, c1 and c2 begin with, in the order readtok tries them;
      nameNext tells whether a name follows c and c1. */
  function LexChars(c: char, c1: char, c2: char, nameNext: bool, curtok: Tok, lasttok: Tok): (r: Lexed)
    ensures r.Lexed? ==> r.tok != End && r.tok != Str && r.tok != Num && 1 <= r.length <= 3
    ensures r.Lexed? ==> (r.length >= 2 ==> c1 != '\0') && (r.length == 3 ==> c2 != '\0')
  {
    if c == '=' && c1 == '=' then Lexed(EqEq, 2)
    else if c == '!' && c1 == '=' then Lexed(Neq, 2)
    else if c == '>' && c1 == '=' then Lexed(Geq, 2)
    else if c == '<' && c1 == '=' then Lexed(Leq, 2)
    else if c == '<' && c1 == '<' then if c2 == '=' then Lexed(OpAssign(Lsh), 3) else Lexed(Lsh, 2)
    else if c == '>' && c1 == '>' then if c2 == '=' then Lexed(OpAssign(Rsh), 3) else Lexed(Rsh, 2)
    else if c == '&' && c1 == '&' then Lexed(LAnd, 2)
    else if c == '|' && c1 == '|' then Lexed(LOr, 2)
    else if c == '*' && c1 == '*' then Lexed(Power, 2)
    else if (c == '-' || c == '+') && c1 == c && curtok == Str then Lexed(if c == '-' then PostDec else PostInc, 2)
    else if (c == '-' || c == '+') && c1 == c && curtok == Num && (lasttok == PreInc || lasttok == PreDec) then
      LexError(LvalueRequired)
    else if (c == '-' || c == '+') && c1 == c then
      if nameNext then Lexed(if c == '-' then PreDec else PreInc, 2) else Lexed(SingleTok(c), 1)
    else if c1 == '=' && IsAssignable(c) then Lexed(OpAssign(SingleTok(c)), 2)
    else if SingleTok(c) == End then
      LexError(if curtok == Str || curtok == Num then InvalidOperator else OperandExpected)
    else Lexed(SingleTok(c), 1)
  }

  /** The operator at position i. */
  function LexOperator(s: string, i: nat, curtok: Tok, lasttok: Tok): (r: Lexed)
    requires i < |s|
    ensures r.Lexed? ==> 1 <= r.length && i + r.length <= |s| && r.tok != End && r.tok != Str && r.tok != Num
  {
    LexChars(s[i], At(s, i + 1), At(s, i + 2), i + 2 <= |s| && NameStart(At(s, SkipBlank(s, i + 2))), curtok, lasttok)
  }
}
