/** The operators of arithmetic as a user sees them: what the text of an expression evaluates to, given what the
    texts of its operands evaluate to. Nothing here speaks of tokens, levels or trees except the operands, which are
    arbitrary expressions in parentheses; results are told by the mathematics of the operator. */
module ArithLaws {
  import opened Numbers
  import opened ArithTokens
  import opened ArithEval
  import opened ArithText
  import opened ArithSyntax
  import opened ArithResults
  import opened Strings
  import opened Wrappers

  // ---------- what an operator yields ----------

  /** Bit k of x in two's complement. */
  predicate Bit(x: int, k: nat)
    decreases k
  {
    if k == 0 then x % 2 == 1 else Bit(x / 2, k - 1)
  }

  /** x with n zero bits after it. */
  function Doubled(x: int, n: nat): int {
    if n == 0 then x else 2 * Doubled(x, n - 1)
  }

  /** x without its last n bits. */
  function Halved(x: int, n: nat): int {
    if n == 0 then x else Halved(x, n - 1) / 2
  }

  function Product(x: int, n: nat): int {
    if n == 0 then 1 else Product(x, n - 1) * x
  }

  /** r is the 64-bit integer that x comes to. */
  predicate Reduces(x: int, r: int) {
    INTMAX_MIN <= r <= INTMAX_MAX && (r - x) % 0x1_0000_0000_0000_0000 == 0
  }

  function OneIf(b: bool): int {
    if b then 1 else 0
  }

  /** v op w is r; the operands and the result are 64-bit integers. */
  ghost predicate Yields(op: string, v: int, w: int, r: int) {
    if op == "+" then Reduces(v + w, r)
    else if op == "-" then Reduces(v - w, r)
    else if op == "*" then Reduces(v * w, r)
    else if op == "/" then
      w != 0 && if v == INTMAX_MIN && w == -1 then r == INTMAX_MIN else Quotient(v, w, r, v - r * w)
    else if op == "%" then w != 0 && exists q: int :: Quotient(v, w, q, r)
    else if op == "**" then w >= 0 && Reduces(Product(v, w), r)
    else if op == "<<" then Reduces(Doubled(v, w % 64), r)
    else if op == ">>" then r == Halved(v, w % 64)
    else if op == "&" then forall k: nat :: k < 64 ==> (Bit(r, k) <==> Bit(v, k) && Bit(w, k))
    else if op == "|" then forall k: nat :: k < 64 ==> (Bit(r, k) <==> Bit(v, k) || Bit(w, k))
    else if op == "^" then forall k: nat :: k < 64 ==> (Bit(r, k) <==> Bit(v, k) != Bit(w, k))
    else if op == "<" then r == OneIf(v < w)
    else if op == ">" then r == OneIf(v > w)
    else if op == "<=" then r == OneIf(v <= w)
    else if op == ">=" then r == OneIf(v >= w)
    else if op == "==" then r == OneIf(v == w)
    else if op == "!=" then r == OneIf(v != w)
    else op == "," && r == w
  }

  /** v is q * w + r, where r is less than w in size and has the sign of v, as C truncates. */
  predicate Quotient(v: int, w: int, q: int, r: int) {
    v == q * w + r && Abs(r) < Abs(w) && (v >= 0 ==> r >= 0) && (v <= 0 ==> r <= 0)
  }

  // ---------- the operators as texts ----------

  const ARITHMETIC: seq<string> :=
    ["*", "/", "%", "+", "-", "<<", ">>", "<=", ">=", "<", ">", "==", "!=", "&", "^", "|"]

  /** The precedence of the operators, tighter ones first. */
  function Rank(op: string): nat {
    if op == "**" then 13
    else if op == "*" || op == "/" || op == "%" then 12
    else if op == "+" || op == "-" then 11
    else if op == "<<" || op == ">>" then 10
    else if op == "<=" || op == ">=" || op == "<" || op == ">" then 9
    else if op == "==" || op == "!=" then 8
    else if op == "&" then 7
    else if op == "^" then 6
    else if op == "|" then 5
    else if op == "&&" then 4
    else if op == "||" then 3
    else if op == "," then 1
    else 0
  }

  predicate IsOperator(op: string) {
    Rank(op) > 0
  }

  function TokenOf(op: string): Tok {
    if op == "*" then Mul else if op == "/" then Div else if op == "%" then Mod
    else if op == "+" then Plus else if op == "-" then Minus
    else if op == "<<" then Lsh else if op == ">>" then Rsh
    else if op == "<=" then Leq else if op == ">=" then Geq else if op == "<" then Lt else if op == ">" then Gt
    else if op == "==" then EqEq else if op == "!=" then Neq
    else if op == "&" then BAnd else if op == "^" then BXor else if op == "|" then BOr
    else if op == "&&" then LAnd else if op == "||" then LOr
    else if op == "!" then Not else if op == "~" then BNot
    else End
  }

  function Tree(op: string, l: Expr, r: Expr): (e: Expr)
    ensures IsInfix(e) && e.l == l && e.r == r
  {
    if op == "**" then Expr.Power(l, r)
    else if op == "," then Sequence(l, r)
    else if op == "&&" || op == "||" then Logical(TokenOf(op), l, r)
    else Binary(TokenOf(op), l, r)
  }

  /** The text of e in parentheses. */
  function Wrapped(e: Expr): string {
    " (" + Print(e, 0) + " )"
  }

  function InfixOf(l: string, op: string, r: string): string {
    l + " " + op + r
  }

  lemma TreeFacts(op: string, l: Expr, r: Expr)
    requires IsOperator(op)
    ensures var e := Tree(op, l, r);
            && OpText(OpOf(e)) == op && LevelOf(e) == (if op == "," then 0 else Rank(op))
            && LeftLevel(e) == (if op == "**" then 14 else LevelOf(e))
            && RightLevel(e) == (if op == "**" then 13 else LevelOf(e) + 1)
  {
    TokenFacts(op);
    hide OpText, InfixLevel, Rank, TokenOf;
    OperatorTexts();
  }

  lemma TokenFacts(op: string)
    requires IsOperator(op)
    ensures op != "**" && op != "," ==> OpText(TokenOf(op)) == op
    ensures op != "**" && op != "," && op != "&&" && op != "||" ==>
              InfixLevel(TokenOf(op)) == Rank(op) && 5 <= Rank(op) <= 12
    ensures op == "**" ==> Rank(op) == 13
    ensures op == "&&" ==> TokenOf(op) == LAnd && Rank(op) == 4
    ensures op == "||" ==> TokenOf(op) == LOr && Rank(op) == 3
  {
  }

  lemma TreeWellFormed(op: string, l: Expr, r: Expr)
    requires IsOperator(op) && WellFormed(l) && WellFormed(r)
    ensures WellFormed(Tree(op, l, r))
  {
    TokenFacts(op);
    hide OpText, InfixLevel, Rank, TokenOf, IsNameText, IsLiteralText, Assignable;
  }

  lemma ParenText(e: Expr, k: nat)
    requires k <= 15
    ensures Print(Paren(e), k) == Wrapped(e)
  {
    assert Spaced("(") == " (" && Spaced(")") == " )";
  }

  lemma InfixPrints(op: string, l: Expr, r: Expr, k: nat)
    requires IsOperator(op) && k <= LevelOf(Tree(op, l, r))
    ensures Print(Tree(op, l, r), k)
         == InfixOf(Print(l, LeftLevel(Tree(op, l, r))), op, Print(r, RightLevel(Tree(op, l, r))))
  {
    hide OpText, Tree, PrintBare, Rank, LevelOf;
    TreeFacts(op, l, r);
    InfixText(Tree(op, l, r));
  }

  /** (a) op (b) */
  lemma OperationText(op: string, a: Expr, b: Expr, k: nat)
    requires IsOperator(op) && k <= LevelOf(Tree(op, Paren(a), Paren(b)))
    ensures Print(Tree(op, Paren(a), Paren(b)), k) == InfixOf(Wrapped(a), op, Wrapped(b))
  {
    hide OpText, Print, Wrapped, Tree, InfixOf, Rank, LevelOf, LeftLevel, RightLevel;
    TreeFacts(op, Paren(a), Paren(b));
    InfixPrints(op, Paren(a), Paren(b), k);
    TreeLevels(op);
    ParenText(a, LeftLevel(Tree(op, Paren(a), Paren(b))));
    ParenText(b, RightLevel(Tree(op, Paren(a), Paren(b))));
  }

  lemma TreeLevels(op: string)
    requires IsOperator(op)
    ensures Rank(op) <= 13
  {
  }

  /** What (a) op (b) evaluates to, where the right operand is never passed over. */
  lemma OperationMeans(op: string, a: Expr, b: Expr, depth: nat, store: Store)
    requires IsOperator(op) && op != "&&" && op != "||" && WellFormed(a) && WellFormed(b)
             && depth < MAX_EXPR_RECURSION_LEVEL
    ensures var m := SubExpr(Print(a, 0), depth, store);
            SubExpr(InfixOf(Wrapped(a), op, Wrapped(b)), depth, store)
            == if m.Broken? then m
               else InfixMeaning(Tree(op, a, b), false, m.value, SubExpr(Print(b, 0), depth, m.store))
  {
    hide OpText, Print, Wrapped, InfixOf, SubExpr, WellFormed, Rank;
    var e := Tree(op, Paren(a), Paren(b));
    OperationText(op, a, b, 0);
    ParenWellFormed(a);
    ParenWellFormed(b);
    TreeWellFormed(op, Paren(a), Paren(b));
    EvaluatesTree(e, depth, store);
    EvaluatesTree(a, depth, store);
    ParenMeans(a, false, depth + 1, store);
    hide Meaning;
    MeaningOfInfix(e, false, depth + 1, store);
    var m := Meaning(a, false, depth + 1, store);
    if m.Found? {
      ParenMeans(b, false, depth + 1, m.store);
      EvaluatesTree(b, depth, m.store);
    }
  }

  lemma ParenWellFormed(e: Expr)
    requires WellFormed(e)
    ensures WellFormed(Paren(e))
  {
    hide IsNameText, IsLiteralText, Assignable;
  }

  lemma ParenMeans(e: Expr, skip: bool, depth: nat, store: Store)
    requires depth <= MAX_EXPR_RECURSION_LEVEL
    ensures Meaning(Paren(e), skip, depth, store) == Meaning(e, skip, depth, store)
  {
  }

  // ---------- what the operators compute ----------

  lemma HalfOfRemainder(x: int, p: int)
    requires p > 0
    ensures (x % (2 * p)) / 2 == (x / 2) % p && (x % (2 * p)) % 2 == x % 2
  {
    var q, b := x / 2, x % 2;
    var t, s := q / p, q % p;
    assert x == (2 * p) * t + (2 * s + b) by {
      assert q == p * t + s;
      assert (2 * p) * t == 2 * (p * t);
    }
    ModUnique(x, t, 2 * s + b, 2 * p);
  }

  /** The bits of x below bit n are those of its remainder. */
  lemma {:induction false} BitOfRemainder(x: int, k: nat, n: nat)
    requires k < n
    ensures Bit(x % Power2(n), k) == Bit(x, k)
    decreases n
  {
    HalfOfRemainder(x, Power2(n - 1));
    if k > 0 {
      BitOfRemainder(x / 2, k - 1, n - 1);
    }
  }

  lemma {:induction false} BitOfBits(f: (bool, bool) -> bool, a: nat, b: nat, n: nat, k: nat)
    requires k < n
    ensures Bit(Bits(f, a, b, n), k) == f(Bit(a, k), Bit(b, k))
    decreases n
  {
    if k > 0 {
      BitOfBits(f, a / 2, b / 2, n - 1, k - 1);
    }
  }

  lemma SixtyFour()
    ensures Power2(64) == TWO_TO_THE_64
  {
    assert Power2(4) == 16;
    Powers(4, 4);
    Powers(8, 8);
    Powers(16, 16);
    Powers(32, 32);
  }

  lemma {:induction false} Powers(m: nat, n: nat)
    ensures Power2(m + n) == Power2(m) * Power2(n)
    decreases n
  {
    if n > 0 {
      Powers(m, n - 1);
      assert Power2(m) * Power2(n) == 2 * (Power2(m) * Power2(n - 1));
    }
  }

  lemma BitOfBitOp(f: (bool, bool) -> bool, a: intmax, b: intmax, k: nat)
    requires k < 64
    ensures Bit(BitOp(f, a, b), k) == f(Bit(a, k), Bit(b, k))
  {
    hide Bits, Bit, Power2, Wrap;
    var x := Bits(f, a % TWO_TO_THE_64, b % TWO_TO_THE_64, 64);
    BitOfBits(f, a % TWO_TO_THE_64, b % TWO_TO_THE_64, 64, k);
    BitOfWord(a, a % TWO_TO_THE_64, k);
    BitOfWord(b, b % TWO_TO_THE_64, k);
    WrapSame(x);
    BitOfWord(x, Wrap(x), k);
  }

  lemma WrapSame(x: int)
    ensures (Wrap(x) - x) % TWO_TO_THE_64 == 0
  {
    hide Wrap;
  }

  /** Integers that are equal modulo 2 to the 64th have the same 64 bits. */
  lemma BitOfWord(x: int, y: int, k: nat)
    requires k < 64 && (y - x) % TWO_TO_THE_64 == 0
    ensures Bit(x, k) == Bit(y, k)
  {
    hide Bit, Power2;
    SixtyFour();
    BitOfRemainder(x, k, 64);
    BitOfRemainder(y, k, 64);
    assert x % TWO_TO_THE_64 == y % TWO_TO_THE_64;
  }

  lemma {:induction false} DoubledIs(x: int, n: nat)
    ensures Doubled(x, n) == x * Power2(n)
  {
    if n > 0 {
      DoubledIs(x, n - 1);
      assert x * Power2(n) == 2 * (x * Power2(n - 1));
    }
  }

  lemma {:induction false} HalvedIs(x: int, n: nat)
    ensures Halved(x, n) == x / Power2(n)
  {
    if n > 0 {
      HalvedIs(x, n - 1);
      HalfOfQuotient(x, Power2(n - 1));
    }
  }

  lemma HalfOfQuotient(x: int, p: int)
    requires p > 0
    ensures x / (2 * p) == (x / p) / 2
  {
    var q, r := x / p, x % p;
    var h, b := q / 2, q % 2;
    assert x == p * q + r && q == 2 * h + b;
    assert p * q == p * (2 * h + b) == (2 * p) * h + p * b;
    assert 0 <= p * b <= p by {
      assert b == 0 || b == 1;
    }
    ModUnique(x, h, p * b + r, 2 * p);
  }

  lemma {:induction false} ProductIs(x: int, n: nat)
    ensures Product(x, n) == Pow(x, n)
  {
    if n > 0 {
      ProductIs(x, n - 1);
    }
  }

  lemma HalvedStays(x: intmax, n: nat)
    ensures INTMAX_MIN <= Halved(x, n) <= INTMAX_MAX
  {
    if n > 0 {
      HalvedStays(x, n - 1);
    }
  }

  lemma TruncatedQuotient(v: int, w: int)
    requires w != 0
    ensures Quotient(v, w, DivC(v, w), ModC(v, w))
  {
    var a: int, b: int := Abs(v), Abs(w);
    var q: int, r: int := a / b, a % b;
    assert a == q * b + r && 0 <= r < b;
    Signs(q, b);
    assert DivC(v, w) == (if (v < 0) == (w < 0) then q else -q) && ModC(v, w) == (if v < 0 then -r else r);
    hide DivC, ModC;
    assert w == b || w == -b;
  }

  lemma Signs(q: int, b: int)
    ensures (-q) * (-b) == q * b && (-q) * b == -(q * b) && q * (-b) == -(q * b)
  {
  }

  lemma QuotientBounds(a: nat, b: nat)
    requires b > 0
    ensures a / b <= a && (b > 1 ==> 2 * (a / b) <= a) && (b == 1 ==> a / b == a)
  {
    assert a == b * (a / b) + a % b;
    if b > 1 {
      assert b * (a / b) == 2 * (a / b) + (b - 2) * (a / b);
      assert (b - 2) * (a / b) >= 0;
    }
  }

  lemma QuotientRange(v: intmax, w: intmax)
    requires w != 0
    ensures INTMAX_MIN <= ModC(v, w) <= INTMAX_MAX
    ensures !(v == INTMAX_MIN && w == -1) ==> INTMAX_MIN <= DivC(v, w) <= INTMAX_MAX
    ensures v == INTMAX_MIN && w == -1 ==> DivC(v, w) == INTMAX_MAX + 1
  {
    QuotientBounds(Abs(v), Abs(w));
    assert 0 <= Abs(v) % Abs(w) < Abs(w);
  }

  lemma OverflowingQuotient()
    ensures Wrap(INTMAX_MAX + 1) == INTMAX_MIN
  {
  }

  /** Every binary operator but `**`, `,` and the logical ones. */
  lemma ApplyYields(op: string, v: intmax, w: intmax)
    requires op in ARITHMETIC && ((op == "/" || op == "%") ==> w != 0)
    ensures Yields(op, v, w, Apply(TokenOf(op), v, w))
  {
    if op == "/" || op == "%" {
      DivisionYields(op, v, w);
    } else if op == "<<" || op == ">>" {
      ShiftYields(op, v, w);
    } else if op == "&" || op == "|" || op == "^" {
      BitwiseYields(op, v, w);
    } else {
      hide Wrap, BitOp, DivC, ModC, Power2;
    }
  }

  lemma DivisionYields(op: string, v: intmax, w: intmax)
    requires (op == "/" || op == "%") && w != 0
    ensures Yields(op, v, w, Apply(TokenOf(op), v, w))
  {
    hide DivC, ModC, Quotient, BitOp, Power2, Wrap;
    TruncatedQuotient(v, w);
    QuotientRange(v, w);
    OverflowingQuotient();
    QuotientRest(v, w, DivC(v, w), ModC(v, w));
  }

  lemma QuotientRest(v: int, w: int, q: int, r: int)
    requires Quotient(v, w, q, r)
    ensures Quotient(v, w, q, v - q * w)
  {
  }

  lemma ShiftYields(op: string, v: intmax, w: intmax)
    requires op == "<<" || op == ">>"
    ensures Yields(op, v, w, Apply(TokenOf(op), v, w))
  {
    hide Doubled, Halved, BitOp, DivC, ModC, Power2, Wrap;
    DoubledIs(v, w % 64);
    HalvedIs(v, w % 64);
    HalvedStays(v, w % 64);
  }

  lemma BitwiseYields(op: string, v: intmax, w: intmax)
    requires op == "&" || op == "|" || op == "^"
    ensures Yields(op, v, w, Apply(TokenOf(op), v, w))
  {
    hide Bit, BitOp, Wrap, DivC, ModC, Power2;
    forall k: nat | k < 64
      ensures Bit(Apply(BAnd, v, w), k) == (Bit(v, k) && Bit(w, k))
      ensures Bit(Apply(BOr, v, w), k) == (Bit(v, k) || Bit(w, k))
      ensures Bit(Apply(BXor, v, w), k) == (Bit(v, k) != Bit(w, k))
    {
      BitOfBitOp((x: bool, y: bool) => x && y, v, w, k);
      BitOfBitOp((x: bool, y: bool) => x || y, v, w, k);
      BitOfBitOp((x: bool, y: bool) => x != y, v, w, k);
    }
  }

  // ---------- the laws ----------

  /** (a) op (b) comes to v op w, where a comes to v, and b to w after that; a quotient by 0 and a negative exponent
      are errors. */
  lemma BinaryLaw(op: string, a: Expr, b: Expr, depth: nat, store: Store)
    requires (op in ARITHMETIC || op == "**" || op == ",") && WellFormed(a) && WellFormed(b)
             && depth < MAX_EXPR_RECURSION_LEVEL
    requires var m := SubExpr(Print(a, 0), depth, store); m.Found? && SubExpr(Print(b, 0), depth, m.store).Found?
    ensures var m := SubExpr(Print(a, 0), depth, store);
            var n := SubExpr(Print(b, 0), depth, m.store);
            var r := SubExpr(InfixOf(Wrapped(a), op, Wrapped(b)), depth, store);
            if (op == "/" || op == "%") && n.value == 0 then r == Broken(DivisionByZero, n.store)
            else if op == "**" && n.value < 0 then r == Broken(NegativeExponent, n.store)
            else r.Found? && r.store == n.store && Yields(op, m.value, n.value, r.value)
  {
    hide SubExpr, Print, Wrapped, InfixOf, WellFormed, Apply, IPow, Yields, TokenOf;
    OperationMeans(op, a, b, depth, store);
    var m := SubExpr(Print(a, 0), depth, store);
    var n := SubExpr(Print(b, 0), depth, m.store);
    InfixYields(op, a, b, m.value, n);
  }

  lemma InfixYields(op: string, a: Expr, b: Expr, v: intmax, n: Looked)
    requires (op in ARITHMETIC || op == "**" || op == ",") && n.Found?
    ensures IsOperator(op) && op != "&&" && op != "||"
    ensures var r := InfixMeaning(Tree(op, a, b), false, v, n);
            if (op == "/" || op == "%") && n.value == 0 then r == Broken(DivisionByZero, n.store)
            else if op == "**" && n.value < 0 then r == Broken(NegativeExponent, n.store)
            else r.Found? && r.store == n.store && Yields(op, v, n.value, r.value)
  {
    if op in ARITHMETIC {
      ArithmeticYields(op, a, b, v, n);
    } else if op == "**" {
      assert Tree(op, a, b) == Expr.Power(a, b);
      if n.value >= 0 {
        hide Yields, IPow;
        PowerYields(v, n.value);
      }
    } else {
      assert Tree(op, a, b) == Sequence(a, b);
    }
  }

  lemma ArithmeticYields(op: string, a: Expr, b: Expr, v: intmax, n: Looked)
    requires op in ARITHMETIC && n.Found?
    ensures IsOperator(op) && op != "&&" && op != "||" && op != "**"
    ensures var r := InfixMeaning(Tree(op, a, b), false, v, n);
            if (op == "/" || op == "%") && n.value == 0 then r == Broken(DivisionByZero, n.store)
            else r.Found? && r.store == n.store && Yields(op, v, n.value, r.value)
  {
    DivisionTokens(op);
    hide Apply, Yields, TokenOf, Rank, ARITHMETIC;
    if (op != "/" && op != "%") || n.value != 0 {
      ApplyYields(op, v, n.value);
    }
  }

  lemma DivisionTokens(op: string)
    requires op in ARITHMETIC
    ensures IsOperator(op) && op != "&&" && op != "||" && op != "**" && op != ","
    ensures TokenOf(op) == Div || TokenOf(op) == Mod <==> op == "/" || op == "%"
  {
  }

  lemma PowerYields(v: intmax, n: intmax)
    requires n >= 0
    ensures Yields("**", v, n, IPow(v, n))
  {
    hide Wrap, Pow, Product;
    ProductIs(v, n);
  }

  /** The prefix operators. */
  lemma UnaryLaw(op: string, a: Expr, depth: nat, store: Store)
    requires op in {"!", "~", "-", "+"} && WellFormed(a) && depth < MAX_EXPR_RECURSION_LEVEL
    ensures var m := SubExpr(Print(a, 0), depth, store);
            var r := SubExpr(" " + op + Wrapped(a), depth, store);
            if m.Broken? then r == m
            else
              && r.Found? && r.store == m.store
              && (op == "!" ==> r.value == OneIf(m.value == 0))
              && (op == "~" ==> r.value == -1 - m.value)
              && (op == "-" ==> Reduces(-(m.value as int), r.value))
              && (op == "+" ==> r.value == m.value)
  {
    hide SubExpr, Print, Wrapped, Wrap, WellFormed, Meaning;
    var e := UnaryTree(op, a);
    UnaryText(op, a);
    EvaluatesTree(e, depth, store);
    EvaluatesTree(a, depth, store);
    UnaryMeans(op, a, depth + 1, store);
    var m := SubExpr(Print(a, 0), depth, store);
    hide UnaryTree;
    if m.Found? {
      UnaryValue(op, a, m.value);
    }
  }

  lemma UnaryValue(op: string, a: Expr, v: intmax)
    requires op in {"!", "~", "-", "+"}
    ensures var r := ArithEval.Unary(UnaryTree(op, a).tok, v);
            && (op == "!" ==> r == OneIf(v == 0))
            && (op == "~" ==> r == -1 - v)
            && (op == "-" ==> Reduces(-(v as int), r))
            && (op == "+" ==> r == v)
  {
    WrapSame(-(v as int));
  }

  function UnaryTree(op: string, a: Expr): Expr {
    Expr.Unary(if op == "!" then Not else if op == "~" then BNot else if op == "-" then Minus else Plus, Paren(a))
  }

  lemma UnaryText(op: string, a: Expr)
    requires op in {"!", "~", "-", "+"}
    ensures Print(UnaryTree(op, a), 0) == " " + op + Wrapped(a)
    ensures WellFormed(a) ==> WellFormed(UnaryTree(op, a))
  {
    ParenText(a, 14);
    var e := UnaryTree(op, a);
    assert OpText(e.tok) == op && IsUnary(e.tok);
    assert Print(e, 0) == PrintBare(e) == Spaced(op) + Print(Paren(a), 14);
    hide Wrapped, Print, PrintBare;
    if WellFormed(a) {
      ParenWellFormed(a);
      UnaryWellFormed(e.tok, Paren(a));
    }
  }

  lemma UnaryWellFormed(tok: Tok, e: Expr)
    requires IsUnary(tok) && WellFormed(e)
    ensures WellFormed(Expr.Unary(tok, e))
  {
    hide Assignable, IsNameText, IsLiteralText;
  }

  lemma UnaryMeans(op: string, a: Expr, depth: nat, store: Store)
    requires depth <= MAX_EXPR_RECURSION_LEVEL
    ensures var m := Meaning(a, false, depth, store);
            Meaning(UnaryTree(op, a), false, depth, store)
            == if m.Broken? then m else Found(ArithEval.Unary(UnaryTree(op, a).tok, m.value), m.store)
  {
    hide ArithEval.Unary;
    ParenMeans(a, false, depth, store);
  }

  /** Tighter operators, and among equals the left one, or for `**` the right one, take their operands first. */
  lemma PrecedenceLaw(p: string, q: string, a: Expr, b: Expr, c: Expr, depth: nat, store: Store)
    requires IsOperator(p) && IsOperator(q) && WellFormed(a) && WellFormed(b) && WellFormed(c)
             && depth < MAX_EXPR_RECURSION_LEVEL
    ensures var right := Rank(q) > Rank(p) || (p == "**" && q == "**");
            var x, y, z := Wrapped(a), Wrapped(b), Wrapped(c);
            SubExpr(InfixOf(x, p, InfixOf(y, q, z)), depth, store)
            == if right then SubExpr(InfixOf(x, p, " (" + InfixOf(y, q, z) + " )"), depth, store)
               else SubExpr(InfixOf(" (" + InfixOf(x, p, y) + " )", q, z), depth, store)
  {
    if Rank(q) > Rank(p) || (p == "**" && q == "**") {
      RightFirst(p, q, a, b, c, depth, store);
    } else {
      LeftFirst(p, q, a, b, c, depth, store);
    }
  }

  lemma RightFirst(p: string, q: string, a: Expr, b: Expr, c: Expr, depth: nat, store: Store)
    requires IsOperator(p) && IsOperator(q) && (Rank(q) > Rank(p) || (p == "**" && q == "**"))
    requires WellFormed(a) && WellFormed(b) && WellFormed(c) && depth < MAX_EXPR_RECURSION_LEVEL
    ensures var x, y, z := Wrapped(a), Wrapped(b), Wrapped(c);
            SubExpr(InfixOf(x, p, InfixOf(y, q, z)), depth, store)
            == SubExpr(InfixOf(x, p, " (" + InfixOf(y, q, z) + " )"), depth, store)
  {
    hide SubExpr, Print, WellFormed, Meaning, Tree, Rank, InfixOf, LevelOf, LeftLevel, RightLevel;
    var inner := Tree(q, Paren(b), Paren(c));
    var e, f := Tree(p, Paren(a), inner), Tree(p, Paren(a), Paren(inner));
    InnerRight(p, q, Paren(a), Paren(b), Paren(c));
    OperationText(q, b, c, 0);
    OperationText(q, b, c, RightLevel(e));
    OperationText(p, a, inner, 0);
    InfixPrints(p, Paren(a), inner, 0);
    ParenText(a, LeftLevel(e));
    OperandsWellFormed(q, b, c);
    OperandsWellFormed(p, a, inner);
    ParenWellFormed(a);
    TreeWellFormed(p, Paren(a), inner);
    EvaluatesTree(e, depth, store);
    EvaluatesTree(f, depth, store);
    RightInParens(p, Paren(a), inner, depth + 1, store);
  }

  lemma OperandsWellFormed(op: string, a: Expr, b: Expr)
    requires IsOperator(op) && WellFormed(a) && WellFormed(b)
    ensures WellFormed(Tree(op, Paren(a), Paren(b)))
  {
    hide WellFormed;
    ParenWellFormed(a);
    ParenWellFormed(b);
    TreeWellFormed(op, Paren(a), Paren(b));
  }

  lemma InnerRight(p: string, q: string, a: Expr, b: Expr, c: Expr)
    requires IsOperator(p) && IsOperator(q) && (Rank(q) > Rank(p) || (p == "**" && q == "**"))
    ensures var e := Tree(p, a, Tree(q, b, c)); LeftLevel(e) <= 15 && RightLevel(e) <= LevelOf(Tree(q, b, c))
  {
    TreeFacts(p, a, Tree(q, b, c));
    TreeFacts(q, b, c);
    TreeLevels(p);
    RankOfPower(p);
    hide Tree, Rank, LevelOf, LeftLevel, RightLevel;
  }

  lemma RankOfPower(op: string)
    requires IsOperator(op)
    ensures (op == "**" <==> Rank(op) == 13) && (op == "," <==> Rank(op) == 1)
  {
  }

  lemma RightInParens(op: string, l: Expr, r: Expr, depth: nat, store: Store)
    requires depth <= MAX_EXPR_RECURSION_LEVEL
    ensures Meaning(Tree(op, l, r), false, depth, store) == Meaning(Tree(op, l, Paren(r)), false, depth, store)
  {
    hide Meaning, Apply, IPow;
    MeaningOfInfix(Tree(op, l, r), false, depth, store);
    MeaningOfInfix(Tree(op, l, Paren(r)), false, depth, store);
    var m := Meaning(l, false, depth, store);
    if m.Found? {
      ParenMeans(r, RightNoeval(Tree(op, l, r), m.value, 0) > 0, depth, m.store);
    }
  }

  lemma LeftFirst(p: string, q: string, a: Expr, b: Expr, c: Expr, depth: nat, store: Store)
    requires IsOperator(p) && IsOperator(q) && Rank(q) <= Rank(p) && !(p == "**" && q == "**")
    requires WellFormed(a) && WellFormed(b) && WellFormed(c) && depth < MAX_EXPR_RECURSION_LEVEL
    ensures var x, y, z := Wrapped(a), Wrapped(b), Wrapped(c);
            SubExpr(InfixOf(x, p, InfixOf(y, q, z)), depth, store)
            == SubExpr(InfixOf(" (" + InfixOf(x, p, y) + " )", q, z), depth, store)
  {
    hide SubExpr, Print, WellFormed, Meaning, Tree, Rank, LevelOf, LeftLevel, RightLevel, Wrapped;
    var inner := Tree(p, Paren(a), Paren(b));
    var e, f := Tree(q, inner, Paren(c)), Tree(q, Paren(inner), Paren(c));
    InnerLeft(p, q, Paren(a), Paren(b), Paren(c));
    OperationText(p, a, b, 0);
    OperationText(p, a, b, LeftLevel(e));
    OperationText(q, inner, c, 0);
    assert Wrapped(inner) == " (" + InfixOf(Wrapped(a), p, Wrapped(b)) + " )" by {
      WrappedText(inner);
    }
    InfixPrints(q, inner, Paren(c), 0);
    ParenText(c, RightLevel(e));
    OperandsWellFormed(p, a, b);
    OperandsWellFormed(q, inner, c);
    ParenWellFormed(c);
    TreeWellFormed(q, inner, Paren(c));
    EvaluatesTree(e, depth, store);
    EvaluatesTree(f, depth, store);
    LeftInParens(q, inner, Paren(c), depth + 1, store);
    InfixAssociates(Wrapped(a), p, Wrapped(b), q, Wrapped(c));
  }

  lemma WrappedText(e: Expr)
    ensures Wrapped(e) == " (" + Print(e, 0) + " )"
  {
    hide Print;
  }

  lemma InfixAssociates(x: string, p: string, y: string, q: string, z: string)
    ensures InfixOf(x, p, InfixOf(y, q, z)) == InfixOf(InfixOf(x, p, y), q, z)
  {
  }

  lemma InnerLeft(p: string, q: string, a: Expr, b: Expr, c: Expr)
    requires IsOperator(p) && IsOperator(q) && Rank(q) <= Rank(p) && !(p == "**" && q == "**")
    ensures var e := Tree(q, Tree(p, a, b), c); RightLevel(e) <= 15 && LeftLevel(e) <= LevelOf(Tree(p, a, b))
  {
    TreeFacts(q, Tree(p, a, b), c);
    TreeFacts(p, a, b);
    TreeLevels(p);
    TreeLevels(q);
    RankOfPower(p);
    RankOfPower(q);
    hide Tree, Rank, LevelOf, LeftLevel, RightLevel;
  }

  lemma LeftInParens(op: string, l: Expr, r: Expr, depth: nat, store: Store)
    requires depth <= MAX_EXPR_RECURSION_LEVEL
    ensures Meaning(Tree(op, l, r), false, depth, store) == Meaning(Tree(op, Paren(l), r), false, depth, store)
  {
    hide Meaning, Apply, IPow;
    MeaningOfInfix(Tree(op, l, r), false, depth, store);
    MeaningOfInfix(Tree(op, Paren(l), r), false, depth, store);
    ParenMeans(l, false, depth, store);
  }

  // ---------- variables ----------

  /** The names of variables. */
  predicate Identifier(name: string) {
    && name != "" && !('0' <= name[0] <= '9')
    && forall k :: 0 <= k < |name| ==>
         'a' <= name[k] <= 'z' || 'A' <= name[k] <= 'Z' || '0' <= name[k] <= '9' || name[k] == '_'
  }

  lemma IdentifierIsName(name: string)
    requires Identifier(name)
    ensures IsNameText(name) && WellFormed(Var(name)) && Print(Var(name), 0) == " " + name
  {
  }

  /** What a name evaluates to is what its text does: 0 if it has none. */
  lemma NameLaw(name: string, depth: nat, store: Store)
    requires Identifier(name) && depth < MAX_EXPR_RECURSION_LEVEL
    ensures SubExpr(" " + name, depth, store)
            == if name in store && store[name] != "" then SubExpr(store[name], depth + 1, store) else Found(0, store)
  {
    hide SubExpr, Print, IsNameText, WellFormed;
    IdentifierIsName(name);
    EvaluatesTree(Var(name), depth, store);
    VarMeans(name, depth, store);
  }

  lemma VarMeans(name: string, depth: nat, store: Store)
    requires depth < MAX_EXPR_RECURSION_LEVEL
    ensures Meaning(Var(name), false, depth + 1, store) == Value(name, false, depth + 1, store)
            == if name in store && store[name] != "" then SubExpr(store[name], depth + 1, store) else Found(0, store)
  {
    hide SubExpr;
  }

  /** A variable that names itself is too deep at any depth. */
  lemma {:induction false} SelfReferenceLaw(name: string, depth: nat, store: Store)
    requires Identifier(name) && name in store && store[name] == " " + name && depth < MAX_EXPR_RECURSION_LEVEL
    ensures SubExpr(" " + name, depth, store) == Broken(RecursionLevel, store)
    decreases MAX_EXPR_RECURSION_LEVEL - depth
  {
    NameLaw(name, depth, store);
    if depth + 1 < MAX_EXPR_RECURSION_LEVEL {
      SelfReferenceLaw(name, depth + 1, store);
    } else {
      assert (" " + name)[1] == name[0];
      NotBlank(name);
    }
  }

  lemma NotBlank(name: string)
    requires Identifier(name)
    ensures SkipBlank(" " + name, 0) == 1
  {
    assert (" " + name)[1] == name[0];
  }

  /** `++` and `--`: the variable goes up or down by 1; before the name they yield the new value, after it the
      old one. */
  lemma StepLaw(name: string, depth: nat, store: Store)
    requires Identifier(name) && depth < MAX_EXPR_RECURSION_LEVEL && SubExpr(" " + name, depth, store).Found?
    ensures var m := SubExpr(" " + name, depth, store);
            var more, less := Wrap(m.value + 1), Wrap(m.value - 1);
            && SubExpr(" ++ " + name, depth, store) == Found(more, m.store[name := Itos(more)])
            && SubExpr(" -- " + name, depth, store) == Found(less, m.store[name := Itos(less)])
            && SubExpr(" " + name + " ++", depth, store) == Found(m.value, m.store[name := Itos(more)])
            && SubExpr(" " + name + " --", depth, store) == Found(m.value, m.store[name := Itos(less)])
  {
    hide SubExpr, Print, IsNameText, WellFormed, Wrap, Itos, Value;
    IdentifierIsName(name);
    StepTexts(name);
    EvaluatesTree(Var(name), depth, store);
    EvaluatesTree(Expr.PreStep(PreInc, name), depth, store);
    EvaluatesTree(Expr.PreStep(PreDec, name), depth, store);
    EvaluatesTree(Expr.PostStep(PostInc, name), depth, store);
    EvaluatesTree(Expr.PostStep(PostDec, name), depth, store);
  }

  lemma StepTexts(name: string)
    requires IsNameText(name)
    ensures Print(Expr.PreStep(PreInc, name), 0) == " ++ " + name && WellFormed(Expr.PreStep(PreInc, name))
    ensures Print(Expr.PreStep(PreDec, name), 0) == " -- " + name && WellFormed(Expr.PreStep(PreDec, name))
    ensures Print(Expr.PostStep(PostInc, name), 0) == " " + name + " ++" && WellFormed(Expr.PostStep(PostInc, name))
    ensures Print(Expr.PostStep(PostDec, name), 0) == " " + name + " --" && WellFormed(Expr.PostStep(PostDec, name))
  {
  }

  /** `++ name` is `name += 1`, and `-- name` is `name -= 1`, in value, in effect and in error. */
  lemma StepIsAssignment(name: string, depth: nat, store: Store)
    requires Identifier(name) && depth < MAX_EXPR_RECURSION_LEVEL
    ensures SubExpr(" ++ " + name, depth, store) == SubExpr(" " + name + " += 1", depth, store)
    ensures SubExpr(" -- " + name, depth, store) == SubExpr(" " + name + " -= 1", depth, store)
  {
    hide SubExpr, Print, IsNameText, WellFormed, Identifier, OpText;
    IdentifierIsName(name);
    StepTexts(name);
    AddsOneText("+", Plus, " += 1", name);
    OneStep(PreInc, Plus, " += 1", name, depth, store);
    AddsOneText("-", Minus, " -= 1", name);
    OneStep(PreDec, Minus, " -= 1", name, depth, store);
  }

  lemma OneStep(tok: Tok, op: Tok, text: string, name: string, depth: nat, store: Store)
    requires IsNameText(name) && depth < MAX_EXPR_RECURSION_LEVEL
    requires (tok == PreInc && op == Plus) || (tok == PreDec && op == Minus)
    requires var e := Expr.Assign(OpAssign(op), name, Lit("1")); Print(e, 0) == " " + name + text && WellFormed(e)
    ensures SubExpr(Print(Expr.PreStep(tok, name), 0), depth, store) == SubExpr(" " + name + text, depth, store)
  {
    hide SubExpr, Print, WellFormed, Meaning;
    StepWellFormed(tok, name);
    assert name != "";
    hide IsNameText;
    EvaluatesTree(Expr.PreStep(tok, name), depth, store);
    EvaluatesTree(Expr.Assign(OpAssign(op), name, Lit("1")), depth, store);
    StepMeans(tok, name, depth + 1, store);
  }

  lemma StepWellFormed(tok: Tok, name: string)
    requires (tok == PreInc || tok == PreDec) && IsNameText(name)
    ensures WellFormed(Expr.PreStep(tok, name))
  {
  }

  lemma AddsOneText(sign: string, op: Tok, text: string, name: string)
    requires IsNameText(name) && text == " " + sign + "= 1"
    requires (sign == "+" && op == Plus) || (sign == "-" && op == Minus)
    ensures var e := Expr.Assign(OpAssign(op), name, Lit("1")); Print(e, 0) == " " + name + text && WellFormed(e)
  {
    hide IsNameText;
    var e := Expr.Assign(OpAssign(op), name, Lit("1"));
    assert OpText(e.tok) == sign + "=" && Assignable(e.tok);
    assert Print(e, 0) == PrintBare(e) == Spaced(name) + Spaced(sign + "=") + Print(Lit("1"), 1);
    assert Print(Lit("1"), 1) == " 1" && WellFormed(Lit("1"));
    AssignWellFormed(e.tok, name, Lit("1"));
    hide Print, PrintBare, WellFormed;
    assert text == " " + (sign + "=") + " 1";
  }

  lemma StepMeans(tok: Tok, name: string, depth: nat, store: Store)
    requires (tok == PreInc || tok == PreDec) && depth <= MAX_EXPR_RECURSION_LEVEL && name != ""
    ensures Meaning(Expr.PreStep(tok, name), false, depth, store)
         == Meaning(Expr.Assign(OpAssign(if tok == PreInc then Plus else Minus), name, Lit("1")), false, depth, store)
  {
    var e := Expr.Assign(OpAssign(if tok == PreInc then Plus else Minus), name, Lit("1"));
    OneAndTwo();
    hide StrLong, Value, Apply, Stepped, Stored;
    AssignUnfolds(e, depth, store);
    var m := Value(name, false, depth, store);
    if m.Found? {
      StepApplies(tok, m.value);
      assert Meaning(Lit("1"), false, depth, m.store) == Found(1, m.store);
    }
  }

  lemma StepApplies(tok: Tok, v: intmax)
    requires tok == PreInc || tok == PreDec
    ensures Stepped(tok, v) == Apply(if tok == PreInc then Plus else Minus, v, 1)
  {
    hide Wrap;
  }

  /** `name = (b)` */
  lemma AssignmentLaw(name: string, b: Expr, depth: nat, store: Store)
    requires Identifier(name) && WellFormed(b) && depth < MAX_EXPR_RECURSION_LEVEL
    ensures var m := SubExpr(Print(b, 0), depth, store);
            SubExpr(" " + name + " =" + Wrapped(b), depth, store)
            == if m.Broken? then m else Found(m.value, m.store[name := Itos(m.value)])
  {
    hide SubExpr, Print, IsNameText, WellFormed, Wrapped, Itos;
    IdentifierIsName(name);
    AssignText("=", name, b);
    EvaluatesTree(b, depth, store);
    assert AssignTree("=", name, b) == Expr.Assign(Eq, name, Paren(b));
    assert " " + name + " =" + Wrapped(b) == " " + name + " " + "=" + Wrapped(b);
    EvaluatesTree(Expr.Assign(Eq, name, Paren(b)), depth, store);
    ParenMeans(b, false, depth + 1, store);
    AssignMeans(name, Paren(b), depth + 1, store);
  }

  lemma AssignMeans(name: string, b: Expr, depth: nat, store: Store)
    requires depth <= MAX_EXPR_RECURSION_LEVEL && name != ""
    ensures var m := Meaning(b, false, depth, store);
            Meaning(Expr.Assign(Eq, name, b), false, depth, store)
            == if m.Broken? then m else Found(m.value, m.store[name := Itos(m.value)])
  {
    AssignUnfolds(Expr.Assign(Eq, name, b), depth, store);
    hide Itos, Meaning, Apply;
  }

  const ASSIGNABLE: seq<string> := ["*", "/", "%", "+", "-", "<<", ">>", "&", "^", "|"]

  /** The tree of `name op= (b)`; "=" stands for plain assignment. */
  function AssignTree(op: string, name: string, b: Expr): Expr {
    Expr.Assign(if op == "=" then Eq else OpAssign(TokenOf(op)), name, Paren(b))
  }

  lemma AssignText(op: string, name: string, b: Expr)
    requires (op == "=" || op in ASSIGNABLE) && IsNameText(name)
    ensures Print(AssignTree(op, name, b), 0) == " " + name + " " + (if op == "=" then op else op + "=") + Wrapped(b)
    ensures WellFormed(b) ==> WellFormed(AssignTree(op, name, b))
  {
    AssignTokens(op);
    ParenText(b, 1);
    var e := AssignTree(op, name, b);
    hide TokenOf, Wrapped, IsNameText, IsLiteralText, OpText, Assignable, ASSIGNABLE;
    var text := if op == "=" then op else op + "=";
    assert Print(e, 0) == PrintBare(e) == Spaced(name) + Spaced(text) + Print(Paren(b), 1);
    hide Print, PrintBare;
    assert Spaced(name) + Spaced(text) + Wrapped(b) == " " + name + " " + text + Wrapped(b);
    if WellFormed(b) {
      ParenWellFormed(b);
      AssignWellFormed(e.tok, name, Paren(b));
    }
  }

  lemma AssignWellFormed(tok: Tok, name: string, b: Expr)
    requires Assignable(tok) && IsNameText(name) && WellFormed(b)
    ensures WellFormed(Expr.Assign(tok, name, b))
  {
    hide Assignable, IsNameText, IsLiteralText;
  }

  lemma AssignTokens(op: string)
    requires op == "=" || op in ASSIGNABLE
    ensures op == "=" ==> OpText(Eq) == "=" && Assignable(Eq)
    ensures op != "=" ==> OpText(OpAssign(TokenOf(op))) == op + "=" && Assignable(OpAssign(TokenOf(op)))
  {
  }

  /** `name op= (b)` is `name = (name op (b))`, in value, in effect and in error. */
  lemma CompoundLaw(op: string, name: string, b: Expr, depth: nat, store: Store)
    requires op in ASSIGNABLE && Identifier(name) && WellFormed(b) && depth < MAX_EXPR_RECURSION_LEVEL
    ensures SubExpr(" " + name + " " + (op + "=") + Wrapped(b), depth, store)
         == SubExpr(" " + name + " = (" + InfixOf(" " + name, op, Wrapped(b)) + " )", depth, store)
  {
    hide SubExpr, Print, IsNameText, WellFormed, Wrapped, Tree, AssignTree;
    IdentifierIsName(name);
    AssignText(op, name, b);
    CompoundOperation(op, name, b);
    var inner := Tree(op, Var(name), Paren(b));
    AssignText("=", name, inner);
    WrappedText(inner);
    var w := InfixOf(" " + name, op, Wrapped(b));
    assert " " + name + " = (" + w + " )" == " " + name + " " + "=" + (" (" + w + " )");
    EvaluatesTree(AssignTree(op, name, b), depth, store);
    EvaluatesTree(AssignTree("=", name, inner), depth, store);
    CompoundMeans(op, name, b, depth + 1, store);
  }

  lemma CompoundOperation(op: string, name: string, b: Expr)
    requires op in ASSIGNABLE && IsNameText(name)
    ensures var e := Tree(op, Var(name), Paren(b));
            Print(e, 0) == InfixOf(" " + name, op, Wrapped(b)) && (WellFormed(b) ==> WellFormed(e))
  {
    AssignableOperator(op);
    var e := Tree(op, Var(name), Paren(b));
    TreeFacts(op, Var(name), Paren(b));
    hide Tree, Wrapped, OpText, Rank, TokenOf, ASSIGNABLE, IsNameText, WellFormed;
    InfixPrints(op, Var(name), Paren(b), 0);
    ParenText(b, RightLevel(e));
    assert Print(Var(name), LeftLevel(e)) == " " + name;
    if WellFormed(b) {
      ParenWellFormed(b);
      VarWellFormed(name);
      TreeWellFormed(op, Var(name), Paren(b));
    }
  }

  lemma VarWellFormed(name: string)
    requires IsNameText(name)
    ensures WellFormed(Var(name))
  {
  }

  lemma AssignableOperator(op: string)
    requires op in ASSIGNABLE
    ensures op in ARITHMETIC && IsOperator(op) && 5 <= Rank(op) <= 12
    ensures Tree(op, Var(""), Var("")).Binary?
  {
  }

  lemma CompoundMeans(op: string, name: string, b: Expr, depth: nat, store: Store)
    requires op in ASSIGNABLE && depth <= MAX_EXPR_RECURSION_LEVEL
    ensures Meaning(AssignTree(op, name, b), false, depth, store)
         == Meaning(AssignTree("=", name, Tree(op, Var(name), Paren(b))), false, depth, store)
  {
    AssignableOperator(op);
    var e := Binary(TokenOf(op), Var(name), Paren(b));
    assert Tree(op, Var(name), Paren(b)) == e;
    PlainAndCompound(op, name, b, e);
    hide TokenOf, Rank, ASSIGNABLE, AssignTree, Tree, Meaning, AssignMeaning, InfixMeaning, Value;
    AssignUnfolds(AssignTree(op, name, b), depth, store);
    AssignUnfolds(AssignTree("=", name, e), depth, store);
    ParenMeans(e, false, depth, store);
    MeaningOfInfix(e, false, depth, store);
    VariableMeans(name, depth, store);
    var m := Value(name, false, depth, store);
    if m.Found? {
      CompoundValue(e, name, m.value, Meaning(Paren(b), false, depth, m.store));
    }
  }

  lemma PlainAndCompound(op: string, name: string, b: Expr, e: Expr)
    requires op in ASSIGNABLE
    ensures AssignTree(op, name, b) == Expr.Assign(OpAssign(TokenOf(op)), name, Paren(b))
    ensures AssignTree("=", name, e) == Expr.Assign(Eq, name, Paren(e))
  {
  }

  lemma VariableMeans(name: string, depth: nat, store: Store)
    requires depth <= MAX_EXPR_RECURSION_LEVEL
    ensures Meaning(Var(name), false, depth, store) == Value(name, false, depth, store)
  {
    hide Value;
  }

  lemma CompoundValue(e: Expr, name: string, v: intmax, n: Looked)
    requires e.Binary?
    ensures AssignMeaning(OpAssign(e.tok), name, false, v, n)
         == AssignMeaning(Eq, name, false, 0, InfixMeaning(e, false, v, n))
  {
    hide Apply, Stored;
  }

  lemma AssignUnfolds(e: Expr, depth: nat, store: Store)
    requires e.Assign? && depth <= MAX_EXPR_RECURSION_LEVEL
    ensures var m := TargetMeaning(e.tok, e.name, false, depth, store);
            Meaning(e, false, depth, store)
            == if m.Broken? then m
               else AssignMeaning(e.tok, e.name, false, m.value, Meaning(e.e, false, depth, m.store))
  {
    hide Assigned, Stored, Value;
  }

  /** Blanks, tabs and newlines before a token do not matter. */
  lemma BlankLaw(st: State)
    requires Valid(st) && st.tp < |st.text| && st.text[st.tp] in {' ', '\t', '\n'}
    ensures ReadTok(st) == ReadTok(st.(tp := st.tp + 1))
  {
    hide StrEval, StrLong, LexOperator, Keeps, Left;
    assert SkipBlank(st.text, st.tp) == SkipBlank(st.text, st.tp + 1);
  }

  // ---------- what is evaluated and what is not ----------

  /** `x ? y : z` */
  lemma ConditionalLaw(x: string, y: string, z: string, depth: nat, store: Store)
    requires Identifier(x) && Identifier(y) && Identifier(z) && depth < MAX_EXPR_RECURSION_LEVEL
    ensures var m := SubExpr(" " + x, depth, store);
            SubExpr(" " + x + " ? " + y + " : " + z, depth, store)
            == if m.Broken? then m else SubExpr(" " + if m.value != 0 then y else z, depth, m.store)
  {
    hide SubExpr, Print, IsNameText, WellFormed, Value;
    IdentifierIsName(x);
    IdentifierIsName(y);
    IdentifierIsName(z);
    ConditionalText(x, y, z);
    var e := Expr.Ternary(Var(x), Var(y), Var(z));
    EvaluatesTree(e, depth, store);
    EvaluatesTree(Var(x), depth, store);
    NamesUnfold(x, y, z, depth + 1, store);
    hide Meaning;
    var m := SubExpr(" " + x, depth, store);
    if m.Found? {
      EvaluatesTree(Var(y), depth, m.store);
      EvaluatesTree(Var(z), depth, m.store);
    }
  }

  lemma ConditionalText(x: string, y: string, z: string)
    requires IsNameText(x) && IsNameText(y) && IsNameText(z)
    ensures var e := Expr.Ternary(Var(x), Var(y), Var(z));
            Print(e, 0) == " " + x + " ? " + y + " : " + z && WellFormed(e)
  {
    hide IsNameText;
    var e := Expr.Ternary(Var(x), Var(y), Var(z));
    assert Print(e, 0) == PrintBare(e)
                       == Print(Var(x), 3) + Spaced("?") + Print(Var(y), 0) + Spaced(":") + Print(Var(z), 2);
    assert Print(Var(x), 3) == " " + x && Print(Var(y), 0) == " " + y && Print(Var(z), 2) == " " + z;
    hide Print, PrintBare;
    assert " ? " == " ?" + " " && " : " == " :" + " ";
    VarWellFormed(x);
    VarWellFormed(y);
    VarWellFormed(z);
    TernaryWellFormed(Var(x), Var(y), Var(z));
  }

  lemma TernaryWellFormed(c: Expr, t: Expr, f: Expr)
    requires WellFormed(c) && WellFormed(t) && WellFormed(f)
    ensures WellFormed(Expr.Ternary(c, t, f))
  {
    hide IsNameText, IsLiteralText, Assignable;
  }

  lemma NamesUnfold(x: string, y: string, z: string, depth: nat, store: Store)
    requires depth <= MAX_EXPR_RECURSION_LEVEL
    ensures var m := Meaning(Var(x), false, depth, store);
            Meaning(Expr.Ternary(Var(x), Var(y), Var(z)), false, depth, store)
            == if m.Broken? then m else Meaning(Var(if m.value != 0 then y else z), false, depth, m.store)
  {
    hide Value;
  }

  /** The operand of a logical operator: an assignment, in parentheses. */
  function Setting(y: string, z: string): Expr {
    Expr.Assign(Eq, y, Var(z))
  }

  /** `x && (y = z)` and `x || (y = z)`: the assignment is made only where x leaves the result open. */
  lemma LogicalLaw(op: string, x: string, y: string, z: string, depth: nat, store: Store)
    requires (op == "&&" || op == "||") && Identifier(x) && Identifier(y) && Identifier(z)
             && depth < MAX_EXPR_RECURSION_LEVEL
    ensures var m := SubExpr(" " + x, depth, store);
            SubExpr(" " + x + " " + op + " ( " + y + " = " + z + " )", depth, store)
            == if m.Broken? then m
               else if (m.value != 0) == (op == "||") then Found(OneIf(op == "||"), m.store)
               else
                 var n := SubExpr(" " + y + " = " + z, depth, m.store);
                 if n.Broken? then n else Found(OneIf(n.value != 0), n.store)
  {
    hide SubExpr, Print, IsNameText, WellFormed, Value, Meaning, Tree, Setting, OneIf, Identifier;
    IdentifierIsName(x);
    IdentifierIsName(y);
    IdentifierIsName(z);
    LogicalText(op, x, y, z);
    var e := Tree(op, Var(x), Paren(Setting(y, z)));
    EvaluatesTree(e, depth, store);
    EvaluatesTree(Var(x), depth, store);
    LogicalMeans(op, x, Setting(y, z), depth + 1, store);
    var m := SubExpr(" " + x, depth, store);
    if m.Found? {
      SettingSkipped(y, z, depth + 1, m.store);
      EvaluatesTree(Setting(y, z), depth, m.store);
    }
  }

  lemma LogicalText(op: string, x: string, y: string, z: string)
    requires (op == "&&" || op == "||") && IsNameText(x) && IsNameText(y) && IsNameText(z)
    ensures Print(Setting(y, z), 0) == " " + y + " = " + z && WellFormed(Setting(y, z))
    ensures var e := Tree(op, Var(x), Paren(Setting(y, z)));
            Print(e, 0) == " " + x + " " + op + " ( " + y + " = " + z + " )" && WellFormed(e)
  {
    hide Print, WellFormed, IsNameText, Tree, Rank, LevelOf, LeftLevel, RightLevel, Setting, OpText, Wrapped;
    var b := Setting(y, z);
    var e := Tree(op, Var(x), Paren(b));
    LogicalOperator(op);
    SettingText(y, z);
    TreeFacts(op, Var(x), Paren(b));
    TreeLevels(op);
    InfixPrints(op, Var(x), Paren(b), 0);
    ParenText(b, RightLevel(e));
    VarText(x, LeftLevel(e));
    VarWellFormed(x);
    ParenWellFormed(b);
    TreeWellFormed(op, Var(x), Paren(b));
    WrappedText(b);
    assert " (" + (" " + y + " = " + z) + " )" == " ( " + y + " = " + z + " )";
  }

  lemma LogicalOperator(op: string)
    requires op == "&&" || op == "||"
    ensures IsOperator(op)
  {
  }

  lemma VarText(x: string, k: nat)
    requires k <= 15
    ensures Print(Var(x), k) == " " + x
  {
  }

  lemma SettingText(y: string, z: string)
    requires IsNameText(y) && IsNameText(z)
    ensures Print(Setting(y, z), 0) == " " + y + " = " + z && WellFormed(Setting(y, z))
  {
    var e := Setting(y, z);
    assert OpText(Eq) == "=" && Assignable(Eq);
    assert Print(e, 0) == PrintBare(e) == Spaced(y) + Spaced(OpText(Eq)) + Print(Var(z), 1);
    VarText(z, 1);
    VarWellFormed(z);
    AssignWellFormed(Eq, y, Var(z));
    hide Print, PrintBare, IsNameText, WellFormed;
    assert " = " == " =" + " ";
  }

  lemma LogicalMeans(op: string, x: string, b: Expr, depth: nat, store: Store)
    requires (op == "&&" || op == "||") && depth <= MAX_EXPR_RECURSION_LEVEL
    ensures var m := Meaning(Var(x), false, depth, store);
            Meaning(Tree(op, Var(x), Paren(b)), false, depth, store)
            == if m.Broken? then m
               else
                 var passed := (m.value != 0) == (op == "||");
                 var n := Meaning(b, passed, depth, m.store);
                 if n.Broken? then n
                 else Found(if passed then OneIf(op == "||") else OneIf(n.value != 0), n.store)
  {
    hide Value, Meaning;
    MeaningOfInfix(Tree(op, Var(x), Paren(b)), false, depth, store);
    var m := Meaning(Var(x), false, depth, store);
    if m.Found? {
      ParenMeans(b, (m.value != 0) == (op == "||"), depth, m.store);
    }
  }

  lemma SettingSkipped(y: string, z: string, depth: nat, store: Store)
    requires depth <= MAX_EXPR_RECURSION_LEVEL
    ensures Meaning(Setting(y, z), true, depth, store).Found?
  {
    hide Itos;
  }

  // ---------- constants ----------

  const SMALL := "abcdefghijklmnopqrstuvwxyz"
  const CAPITALS := "ABCDEFGHIJKLMNOPQRSTUVWXYZ"
  const DIGITS := "0123456789" + SMALL + CAPITALS + "@_"

  /** `base#c` is the place of c among the digits; up to base 36 capitals are as good as small letters. */
  lemma DigitLaw(base: nat, k: nat, depth: nat, store: Store)
    requires 2 <= base <= 64 && k < base && depth < MAX_EXPR_RECURSION_LEVEL
    ensures |DIGITS| == 64 && SubExpr(" " + Digits(base) + "#" + [DIGITS[k]], depth, store) == Found(k, store)
    ensures 10 <= k && base <= 36 ==>
              SubExpr(" " + Digits(base) + "#" + [DIGITS[k + 26]], depth, store) == Found(k, store)
  {
    hide SubExpr, Digits, DIGITS;
    DigitAt(base, k);
    OneDigit(base, DIGITS[k], k, depth, store);
    if 10 <= k && base <= 36 {
      OneDigit(base, DIGITS[k + 26], k, depth, store);
    }
  }

  lemma DigitAt(base: nat, k: nat)
    requires 2 <= base <= 64 && k < base
    ensures |DIGITS| == 64 && (NameChar(DIGITS[k]) || DIGITS[k] == '@') && DigitIn(DIGITS[k], base) == k
    ensures 10 <= k && base <= 36 ==> NameChar(DIGITS[k + 26]) && DigitIn(DIGITS[k + 26], base) == k
  {
    DigitsSpelled(k);
    if 10 <= k && base <= 36 {
      DigitsSpelled(k + 26);
    }
    hide DIGITS;
  }

  lemma DigitsSpelled(k: nat)
    requires k < 64
    ensures |DIGITS| == 64
    ensures DIGITS[k] == if k < 10 then '0' + k as char else if k < 36 then 'a' + (k - 10) as char
                         else if k < 62 then 'A' + (k - 36) as char else if k == 62 then '@' else '_'
  {
    Alphabets();
    hide SMALL, CAPITALS;
    assert |DIGITS| == 64;
    if k < 10 {
      assert DIGITS[k] == "0123456789"[k];
    } else if k < 36 {
      assert DIGITS[k] == SMALL[k - 10];
    } else if k < 62 {
      assert DIGITS[k] == CAPITALS[k - 36];
    } else {
      assert DIGITS[k] == "@_"[k - 62];
    }
  }

  lemma Alphabets()
    ensures |SMALL| == |CAPITALS| == 26
    ensures forall k :: 0 <= k < 26 ==> SMALL[k] == 'a' + k as char && CAPITALS[k] == 'A' + k as char
  {
  }

  lemma OneDigit(base: nat, c: char, k: nat, depth: nat, store: Store)
    requires 2 <= base <= 64 && k < base && depth < MAX_EXPR_RECURSION_LEVEL
    requires (NameChar(c) || c == '@') && DigitIn(c, base) == k
    ensures SubExpr(" " + Digits(base) + "#" + [c], depth, store) == Found(k, store)
  {
    hide SubExpr, Digits, StrLong;
    var text := Digits(base) + "#" + [c];
    DigitsArePositional(Digits(base));
    DigitsRoundTrip(base);
    BasedConstant(Digits(base), [c]);
    assert Positional([c][..0], base) == 0;
    LiteralText(base, c);
    EvaluatesTree(Lit(text), depth, store);
    assert " " + Digits(base) + "#" + [c] == " " + text;
  }

  lemma LiteralText(base: nat, c: char)
    requires NameChar(c) || c == '@'
    ensures var text := Digits(base) + "#" + [c]; WellFormed(Lit(text)) && Print(Lit(text), 0) == " " + text
  {
    hide Digits;
  }
}
