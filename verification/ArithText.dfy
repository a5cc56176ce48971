/** Expression trees and their text, and how readtok reads that text token by token. */
module ArithText {
  import opened Numbers
  import opened ArithTokens
  import opened ArithEval
  import opened Strings
  import opened Wrappers

  /** Unread is for a variable right before `=`, which readtok does not look up; well-formed expressions have none. */
  datatype Expr =
    | Lit(text: string)
    | Var(name: string)
    | Unread(name: string)
    | Paren(e: Expr)
    | PreStep(tok: Tok, name: string)
    | PostStep(tok: Tok, name: string)
    | Unary(tok: Tok, e: Expr)
    | Power(l: Expr, r: Expr)
    | Binary(tok: Tok, l: Expr, r: Expr)
    | Logical(tok: Tok, l: Expr, r: Expr)
    | Ternary(c: Expr, t: Expr, f: Expr)
    | Assign(tok: Tok, name: string, e: Expr)
    | Sequence(l: Expr, r: Expr)

  // ---------- the precedence table ----------

  /** The level of the table at which a token is an infix operator; -1 for one that is not. */
  function InfixLevel(tok: Tok): int {
    match tok
    case Comma => 0
    case Eq => 1
    case OpAssign(_) => 1
    case Ques => 2
    case LOr => 3
    case LAnd => 4
    case BOr => 5
    case BXor => 6
    case BAnd => 7
    case EqEq | Neq => 8
    case Leq | Geq | Lt | Gt => 9
    case Lsh | Rsh => 10
    case Plus | Minus => 11
    case Mul | Div | Mod => 12
    case Power => 13
    case _ => -1
  }

  function LevelOf(e: Expr): nat {
    match e
    case Sequence(_, _) => 0
    case Assign(_, _, _) => 1
    case Ternary(_, _, _) => 2
    case Logical(tok, _, _) => if tok == LOr then 3 else 4
    case Binary(tok, _, _) => if 5 <= InfixLevel(tok) <= 12 then InfixLevel(tok) else 5
    case Power(_, _) => 13
    case Unary(_, _) => 14
    case _ => 15
  }

  predicate RightAssociative(k: nat) {
    k == 1 || k == 2 || k == 13
  }

  predicate IsNameText(s: string) {
    s != "" && NameStart(s[0]) && forall i :: 0 <= i < |s| ==> NameChar(s[i])
  }

  predicate IsLiteralText(s: string) {
    s != "" && IsDigit(s[0]) && forall i :: 0 <= i < |s| ==> NumChar(s[i])
  }

  predicate Assignable(tok: Tok) {
    tok == Eq || (tok.OpAssign? && tok.op in {Mul, Div, Mod, Plus, Minus, Lsh, Rsh, BAnd, BXor, BOr})
  }

  /** Every node has an operator, a name or a literal of its own kind. */
  predicate Formed(e: Expr) {
    match e
    case Lit(text) => IsLiteralText(text)
    case Var(name) => IsNameText(name)
    case Unread(name) => IsNameText(name)
    case Paren(e) => Formed(e)
    case PreStep(tok, name) => (tok == PreInc || tok == PreDec) && IsNameText(name)
    case PostStep(tok, name) => (tok == PostInc || tok == PostDec) && IsNameText(name)
    case Unary(tok, e) => IsUnary(tok) && Formed(e)
    case Power(l, r) => Formed(l) && Formed(r)
    case Binary(tok, l, r) => 5 <= InfixLevel(tok) <= 12 && Formed(l) && Formed(r)
    case Logical(tok, l, r) => (tok == LOr || tok == LAnd) && Formed(l) && Formed(r)
    case Ternary(c, t, f) => Formed(c) && Formed(t) && Formed(f)
    case Assign(tok, name, e) => Assignable(tok) && IsNameText(name) && Formed(e)
    case Sequence(l, r) => Formed(l) && Formed(r)
  }

  /** Every variable is to be looked up. */
  predicate AllRead(e: Expr) {
    match e
    case Unread(_) => false
    case Paren(e) => AllRead(e)
    case Unary(_, e) => AllRead(e)
    case Power(l, r) => AllRead(l) && AllRead(r)
    case Binary(_, l, r) => AllRead(l) && AllRead(r)
    case Logical(_, l, r) => AllRead(l) && AllRead(r)
    case Ternary(c, t, f) => AllRead(c) && AllRead(t) && AllRead(f)
    case Assign(_, _, e) => AllRead(e)
    case Sequence(l, r) => AllRead(l) && AllRead(r)
    case _ => true
  }

  predicate WellFormed(e: Expr) {
    Formed(e) && AllRead(e)
  }

  /** Where tok follows e, as an operand of level k, its variables right before `=`, and no others, are unread. */
  predicate Placed(e: Expr, k: nat, tok: Tok)
    decreases e, 1
  {
    PlacedBare(e, if LevelOf(e) < k then RPar else tok)
  }

  predicate PlacedBare(e: Expr, tok: Tok)
    decreases e, 0
  {
    var k := LevelOf(e);
    match e
    case Var(_) => tok != Eq
    case Unread(_) => tok == Eq
    case Paren(e) => Placed(e, 0, RPar)
    case Unary(_, e) => Placed(e, 14, tok)
    case Power(l, r) => Placed(l, 14, Tok.Power) && Placed(r, 13, tok)
    case Binary(op, l, r) => Placed(l, k, op) && Placed(r, k + 1, tok)
    case Logical(op, l, r) => Placed(l, k, op) && Placed(r, k + 1, tok)
    case Ternary(c, t, f) => Placed(c, 3, Ques) && Placed(t, 0, Col) && Placed(f, 2, tok)
    case Assign(_, _, e) => Placed(e, 1, tok)
    case Sequence(l, r) => Placed(l, 0, Comma) && Placed(r, 1, tok)
    case _ => true
  }

  lemma PartsWellFormed(e: Expr)
    requires WellFormed(e)
    ensures !e.Unread?
    ensures e.Paren? || e.Unary? || e.Assign? ==> WellFormed(e.e)
    ensures e.Power? || e.Binary? || e.Logical? || e.Sequence? ==> WellFormed(e.l) && WellFormed(e.r)
    ensures e.Binary? || e.Logical? ==> e.tok != Eq
    ensures e.Ternary? ==> WellFormed(e.c) && WellFormed(e.t) && WellFormed(e.f)
  {
    hide IsNameText, IsLiteralText;
  }

  lemma {:induction false} ReadIsPlaced(e: Expr, k: nat, tok: Tok)
    requires WellFormed(e) && tok != Eq
    ensures Placed(e, k, tok)
    decreases e, 1
  {
    hide WellFormed, LevelOf, PlacedBare;
    BareIsPlaced(e, if LevelOf(e) < k then RPar else tok);
  }

  lemma {:induction false} BareIsPlaced(e: Expr, tok: Tok)
    requires WellFormed(e) && tok != Eq
    ensures PlacedBare(e, tok)
    decreases e, 0
  {
    hide Placed, Formed, AllRead, WellFormed, LevelOf, InfixLevel, Assignable;
    PartsWellFormed(e);
    var j := LevelOf(e);
    match e
    case Paren(e) => ReadIsPlaced(e, 0, RPar);
    case Unary(_, e) => ReadIsPlaced(e, 14, tok);
    case Power(l, r) =>
      ReadIsPlaced(l, 14, Tok.Power);
      ReadIsPlaced(r, 13, tok);
    case Binary(op, l, r) =>
      ReadIsPlaced(l, j, op);
      ReadIsPlaced(r, j + 1, tok);
    case Logical(op, l, r) =>
      ReadIsPlaced(l, j, op);
      ReadIsPlaced(r, j + 1, tok);
    case Ternary(c, t, f) =>
      ReadIsPlaced(c, 3, Ques);
      ReadIsPlaced(t, 0, Col);
      ReadIsPlaced(f, 2, tok);
    case Assign(_, _, e) => ReadIsPlaced(e, 1, tok);
    case Sequence(l, r) =>
      ReadIsPlaced(l, 0, Comma);
      ReadIsPlaced(r, 1, tok);
    case _ =>
  }

  /** e, as an operand of level k that `=` follows: a variable at its very end is not looked up. */
  function Cut(e: Expr, k: nat): Expr
    decreases e
  {
    if LevelOf(e) < k then e
    else match e
    case Var(name) => Unread(name)
    case Unary(tok, e) => Unary(tok, Cut(e, 14))
    case Power(l, r) => Expr.Power(l, Cut(r, 13))
    case Binary(tok, l, r) => Binary(tok, l, Cut(r, LevelOf(e) + 1))
    case Logical(tok, l, r) => Logical(tok, l, Cut(r, LevelOf(e) + 1))
    case Ternary(c, t, f) => Ternary(c, t, Cut(f, 2))
    case _ => e
  }

  // ---------- text ----------

  function OpText(tok: Tok): string {
    match tok
    case EqEq => "==" case Neq => "!=" case Leq => "<=" case Geq => ">=" case LAnd => "&&" case LOr => "||"
    case Lsh => "<<" case Rsh => ">>" case Power => "**"
    case PreInc => "++" case PreDec => "--" case PostInc => "++" case PostDec => "--"
    case Eq => "=" case Gt => ">" case Lt => "<" case Plus => "+" case Minus => "-" case Mul => "*"
    case Div => "/" case Mod => "%" case Not => "!" case LPar => "(" case RPar => ")"
    case BAnd => "&" case BOr => "|" case BXor => "^" case BNot => "~" case Ques => "?" case Col => ":"
    case Comma => ","
    case OpAssign(op) => AssignText(op)
    case _ => ""
  }

  /** The text of an assignment operator. */
  function AssignText(op: Tok): string {
    match op
    case Lsh => "<<=" case Rsh => ">>=" case Plus => "+=" case Minus => "-=" case Mul => "*=" case Div => "/="
    case Mod => "%=" case BAnd => "&=" case BOr => "|=" case BXor => "^="
    case _ => ""
  }

  /** A token with the blank that separates it from the one before. */
  function Spaced(s: string): string {
    " " + s
  }

  /** The text of e as an operand of level k: in parentheses when e binds less tightly. */
  function Print(e: Expr, k: nat): string
    decreases e, 1
  {
    if LevelOf(e) < k then Spaced("(") + PrintBare(e) + Spaced(")") else PrintBare(e)
  }

  function PrintBare(e: Expr): string
    decreases e, 0
  {
    var k := LevelOf(e);
    match e
    case Lit(text) => Spaced(text)
    case Var(name) => Spaced(name)
    case Unread(name) => Spaced(name)
    case Paren(e) => Spaced("(") + Print(e, 0) + Spaced(")")
    case PreStep(tok, name) => Spaced(OpText(tok)) + Spaced(name)
    case PostStep(tok, name) => Spaced(name) + Spaced(OpText(tok))
    case Unary(tok, e) => Spaced(OpText(tok)) + Print(e, 14)
    case Power(l, r) => Print(l, 14) + Spaced("**") + Print(r, 13)
    case Binary(tok, l, r) => Print(l, k) + Spaced(OpText(tok)) + Print(r, k + 1)
    case Logical(tok, l, r) => Print(l, k) + Spaced(OpText(tok)) + Print(r, k + 1)
    case Ternary(c, t, f) => Print(c, 3) + Spaced("?") + Print(t, 0) + Spaced(":") + Print(f, 2)
    case Assign(tok, name, e) => Spaced(name) + Spaced(OpText(tok)) + Print(e, 1)
    case Sequence(l, r) => Print(l, 0) + Spaced(",") + Print(r, 1)
  }

  /** Looking a variable up or not makes no difference to the text. */
  lemma {:induction false} CutText(e: Expr, k: nat)
    ensures Print(Cut(e, k), k) == Print(e, k) && LevelOf(Cut(e, k)) == LevelOf(e)
    decreases e
  {
    hide Spaced, OpText;
    if LevelOf(e) >= k {
      match e
      case Unary(_, e1) => CutText(e1, 14);
      case Power(_, r) => CutText(r, 13);
      case Binary(_, _, r) => CutText(r, LevelOf(e) + 1);
      case Logical(_, _, r) => CutText(r, LevelOf(e) + 1);
      case Ternary(_, _, f) => CutText(f, 2);
      case _ =>
    }
  }

  lemma {:induction false} CutIsPlaced(e: Expr, k: nat)
    requires WellFormed(e) && 2 <= k <= 15
    ensures Formed(Cut(e, k)) && Placed(Cut(e, k), k, Eq)
    decreases e
  {
    hide IsNameText, IsLiteralText, AllRead;
    PartsWellFormed(e);
    hide WellFormed;
    if LevelOf(e) < k {
      ReadIsPlaced(e, k, RPar);
    } else {
      match e
      case Paren(_) => ReadIsPlaced(e, k, RPar);
      case Unary(_, e1) => CutIsPlaced(e1, 14);
      case Power(l, r) =>
        ReadIsPlaced(l, 14, Tok.Power);
        CutIsPlaced(r, 13);
      case Binary(op, l, r) =>
        ReadIsPlaced(l, LevelOf(e), op);
        CutIsPlaced(r, LevelOf(e) + 1);
      case Logical(op, l, r) =>
        ReadIsPlaced(l, LevelOf(e), op);
        CutIsPlaced(r, LevelOf(e) + 1);
      case Ternary(c, t, f) =>
        ReadIsPlaced(c, 3, Ques);
        ReadIsPlaced(t, 0, Col);
        CutIsPlaced(f, 2);
      case _ =>
    }
  }

  // ---------- the text of an operator and its operands ----------

  lemma PrintNotEmpty(e: Expr, k: nat)
    ensures |Print(e, k)| > 0 && Print(e, k)[0] == ' '
    ensures |PrintBare(e)| > 0 && PrintBare(e)[0] == ' '
    decreases e
  {
    match e
    case Power(l, r) => PrintNotEmpty(l, 14);
    case Binary(tok, l, r) => PrintNotEmpty(l, LevelOf(e));
    case Logical(tok, l, r) => PrintNotEmpty(l, LevelOf(e));
    case Ternary(c, t, f) => PrintNotEmpty(c, 3);
    case Sequence(l, r) => PrintNotEmpty(l, 0);
    case _ =>
  }

  /** Where the operator and the right part of a + op + b are. */
  lemma SplitInfix(text: string, p: nat, a: string, op: Tok, b: string)
    requires Holds(text, p, a + Spaced(OpText(op)) + b) && op != End && b != "" && b[0] == ' '
    ensures var q := p + |a| + 1 + |OpText(op)|;
            && Holds(text, p, a) && NextIs(text, p + |a|, op, q) && Holds(text, q, b)
            && |a + Spaced(OpText(op)) + b| == |a| + 1 + |OpText(op)| + |b|
  {
    hide OpText;
    var q := p + |a| + 1 + |OpText(op)|;
    HoldsParts(text, p, a + Spaced(OpText(op)), b);
    HoldsParts(text, p, a, Spaced(OpText(op)));
    HoldsAt(text, q, b, 0);
  }

  /** The operator that a token of a prefix position is, and the rest. */
  lemma SplitPrefix(text: string, p: nat, op: Tok, b: string)
    requires Holds(text, p, Spaced(OpText(op)) + b) && op != End && b != "" && b[0] == ' '
    ensures var q := p + 1 + |OpText(op)|;
            NextIs(text, p, op, q) && Holds(text, q, b) && |Spaced(OpText(op)) + b| == 1 + |OpText(op)| + |b|
  {
    hide OpText;
    HoldsParts(text, p, Spaced(OpText(op)), b);
    HoldsAt(text, p + 1 + |OpText(op)|, b, 0);
  }

  /** An expression in parentheses: where its inside and the closing one are. */
  lemma SplitParens(text: string, p: nat, inner: string, tok: Tok, q: nat)
    requires Holds(text, p, Spaced("(") + inner + Spaced(")")) && inner != "" && inner[0] == ' '
    requires NextIs(text, p + |Spaced("(") + inner + Spaced(")")|, tok, q)
    ensures NextIs(text, p, LPar, p + 2) && Holds(text, p + 2, inner)
    ensures NextIs(text, p + 2 + |inner|, RPar, p + 4 + |inner|) && NextIs(text, p + 4 + |inner|, tok, q)
    ensures p + 4 + |inner| <= |text|
  {
    hide NextIs, Holds, Ends;
    assert |Spaced("(") + inner| == 2 + |inner| && |Spaced(")")| == 2;
    HoldsParts(text, p, Spaced("(") + inner, Spaced(")"));
    HoldsParts(text, p, Spaced("("), inner);
    HoldsBound(text, p + 2 + |inner|, Spaced(")"));
    HoldsAt(text, p + 2, inner, 0);
    NextEnds(text, p + 4 + |inner|, tok, q);
    NextHere(text, p, LPar);
    NextHere(text, p + 2 + |inner|, RPar);
  }

  lemma NextHere(text: string, p: nat, tok: Tok)
    requires Holds(text, p, Spaced(OpText(tok))) && Ends(text, p + 1 + |OpText(tok)|) && tok != End
    ensures NextIs(text, p, tok, p + 1 + |OpText(tok)|)
  {
  }

  // ---------- reading the tokens of a printed expression ----------

  /** A token that is read the same after any other. */
  predicate Plain(tok: Tok) {
    InfixLevel(tok) >= 0 || tok in {Not, LPar, RPar, BNot, Col}
  }

  /** At p the text ends (tok is End, q is p), or tok follows, up to q, and then a blank or the end. */
  predicate NextIs(text: string, p: nat, tok: Tok, q: nat) {
    if tok == End then p == |text| && q == p
    else Holds(text, p, Spaced(OpText(tok))) && q == p + 1 + |OpText(tok)| && (q == |text| || text[q] == ' ')
  }

  /** The state is one in which an operand is expected. */
  predicate Ready(st: State) {
    Valid(st) && st.curtok !in {Str, Num, PreInc, PreDec} && st.lasttok != PreInc && st.lasttok != PreDec
  }

  /** st with the token read that ends at q. */
  function Advanced(st: State, tok: Tok, q: nat): State {
    st.(tp := q, lasttok := st.curtok, curtok := tok)
  }

  /** Tokens that may be read: those of the text of an expression, short of `++` and `--` before a name. */
  predicate Readable(tok: Tok, curtok: Tok) {
    (Plain(tok) && (tok.OpAssign? ==> Assignable(tok))) || ((tok == PostInc || tok == PostDec) && curtok == Str)
  }

  /** The characters s, c1 and c2 of a text at which s stands and ends a word. */
  predicate Spells(s: string, c1: char, c2: char) {
    && |s| > 0
    && (if |s| > 1 then c1 == s[1] else c1 == ' ' || c1 == '\0')
    && (if |s| > 2 then c2 == s[2] else |s| == 2 ==> c2 == ' ' || c2 == '\0')
  }

  lemma LexAssignChars(op: Tok, c1: char, c2: char, nameNext: bool, curtok: Tok, lasttok: Tok)
    requires Assignable(OpAssign(op)) && Spells(AssignText(op), c1, c2)
    ensures LexChars(AssignText(op)[0], c1, c2, nameNext, curtok, lasttok) == Lexed(OpAssign(op), |AssignText(op)|)
    ensures var c := AssignText(op)[0]; !IsBlank(c) && !NameStart(c) && !IsDigit(c)
  {
  }

  /** A character that no other follows into an operator. */
  lemma LexSingleChars(c: char, c1: char, c2: char, nameNext: bool, curtok: Tok, lasttok: Tok)
    requires SingleTok(c) != End && (c1 == ' ' || c1 == '\0')
    ensures LexChars(c, c1, c2, nameNext, curtok, lasttok) == Lexed(SingleTok(c), 1)
  {
  }

  lemma SingleText(tok: Tok)
    requires !tok.OpAssign? && Plain(tok) && |OpText(tok)| == 1
    ensures SingleTok(OpText(tok)[0]) == tok && tok != End
  {
  }

  lemma SingleIsNoWord(c: char)
    requires SingleTok(c) != End
    ensures !IsBlank(c) && !NameStart(c) && !IsDigit(c)
  {
  }

  lemma LexDoubleChars(tok: Tok, c2: char, nameNext: bool, curtok: Tok, lasttok: Tok)
    requires !tok.OpAssign? && Readable(tok, curtok) && |OpText(tok)| == 2 && (c2 == ' ' || c2 == '\0')
    ensures LexChars(OpText(tok)[0], OpText(tok)[1], c2, nameNext, curtok, lasttok) == Lexed(tok, 2)
    ensures var c := OpText(tok)[0]; !IsBlank(c) && !NameStart(c) && !IsDigit(c)
  {
  }

  lemma LexPrintedChars(tok: Tok, c1: char, c2: char, nameNext: bool, curtok: Tok, lasttok: Tok)
    requires Readable(tok, curtok) && Spells(OpText(tok), c1, c2)
    ensures LexChars(OpText(tok)[0], c1, c2, nameNext, curtok, lasttok) == Lexed(tok, |OpText(tok)|)
    ensures var c := OpText(tok)[0]; !IsBlank(c) && !NameStart(c) && !IsDigit(c)
  {
    hide LexChars, SingleTok, OpText, IsBlank, NameStart, IsDigit, AssignText;
    OpTextLength(tok, curtok);
    if tok.OpAssign? {
      LexAssignChars(tok.op, c1, c2, nameNext, curtok, lasttok);
    } else if |OpText(tok)| == 1 {
      SingleText(tok);
      SingleIsNoWord(OpText(tok)[0]);
      LexSingleChars(OpText(tok)[0], c1, c2, nameNext, curtok, lasttok);
    } else {
      LexDoubleChars(tok, c2, nameNext, curtok, lasttok);
    }
  }

  lemma SpellsAt(text: string, i: nat, s: string)
    requires Holds(text, i, s) && (i + |s| == |text| || text[i + |s|] == ' ') && 0 < |s| <= 3
    ensures i < |text| && text[i] == s[0] && Spells(s, At(text, i + 1), At(text, i + 2))
  {
    forall k | 0 <= k < |s| ensures text[i + k] == s[k] {
      HoldsAt(text, i, s, k);
    }
  }

  lemma LexPrinted(text: string, i: nat, tok: Tok, curtok: Tok, lasttok: Tok)
    requires Holds(text, i, OpText(tok)) && (i + |OpText(tok)| == |text| || text[i + |OpText(tok)|] == ' ')
    requires Readable(tok, curtok)
    ensures i < |text| && LexOperator(text, i, curtok, lasttok) == Lexed(tok, |OpText(tok)|)
    ensures !IsBlank(text[i]) && !NameStart(text[i]) && !IsDigit(text[i])
  {
    hide LexChars, OpText, Readable, Holds, Spells;
    OpTextLength(tok, curtok);
    SpellsAt(text, i, OpText(tok));
    LexPrintedChars(tok, At(text, i + 1), At(text, i + 2),
                    i + 2 <= |text| && NameStart(At(text, SkipBlank(text, i + 2))), curtok, lasttok);
  }

  lemma OpTextLength(tok: Tok, curtok: Tok)
    requires Readable(tok, curtok)
    ensures 1 <= |OpText(tok)| <= 3 && (!tok.OpAssign? ==> |OpText(tok)| <= 2)
    ensures tok.OpAssign? ==> OpText(tok) == AssignText(tok.op) && Assignable(tok)
    ensures |OpText(tok)| == 1 ==> Plain(tok)
  {
  }

  /** Where the blank before a token leads. */
  lemma SkipOneBlank(text: string, p: nat)
    requires p + 1 < |text| && text[p] == ' ' && !IsBlank(text[p + 1])
    ensures SkipBlank(text, p) == p + 1
  {
  }

  lemma SpacedAt(text: string, p: nat, s: string)
    requires Holds(text, p, Spaced(s)) && s != ""
    ensures p + 1 < |text| && text[p] == ' ' && Holds(text, p + 1, s) && text[p + 1] == s[0]
  {
    HoldsParts(text, p, " ", s);
    HoldsAt(text, p, " ", 0);
    HoldsAt(text, p + 1, s, 0);
  }

  /** readtok at an operator. */
  lemma ReadOperator(st: State, cp: nat, tok: Tok, length: nat)
    requires Valid(st) && cp == SkipBlank(st.text, st.tp) < |st.text|
    requires !NameStart(st.text[cp]) && !IsDigit(st.text[cp])
    requires LexOperator(st.text, cp, st.curtok, st.lasttok) == Lexed(tok, length)
    ensures ReadTok(st) == Ok(0, Advanced(st, tok, cp + length))
  {
    hide SkipBlank, NameEnd, NumEnd, StrEval, StrLong, LexOperator, NameStart, IsDigit, Keeps, Left;
  }

  /** Where an operator that comes next is, and how it is lexed. */
  lemma OperatorAt(text: string, p: nat, tok: Tok, q: nat, curtok: Tok, lasttok: Tok)
    requires NextIs(text, p, tok, q) && tok != End && Readable(tok, curtok)
    ensures var cp := p + 1;
            && q <= |text| && p <= |text| && SkipBlank(text, p) == cp < |text| && !NameStart(text[cp])
                && !IsDigit(text[cp])
            && q == cp + |OpText(tok)| && LexOperator(text, cp, curtok, lasttok) == Lexed(tok, |OpText(tok)|)
  {
    hide LexOperator, Readable, OpText, Holds, SkipBlank, NameStart, IsDigit;
    OpTextLength(tok, curtok);
    HoldsBound(text, p, Spaced(OpText(tok)));
    SpacedAt(text, p, OpText(tok));
    LexPrinted(text, p + 1, tok, curtok, lasttok);
    SkipOneBlank(text, p);
  }

  /** readtok at the next operator, or at the end. */
  lemma ReadNext(st: State, tok: Tok, q: nat)
    requires Valid(st) && NextIs(st.text, st.tp, tok, q) && (tok == End || Readable(tok, st.curtok))
    ensures q <= |st.text| && ReadTok(st) == Ok(0, Advanced(st, tok, q))
  {
    if tok == End {
      ReadEnd(st);
    } else {
      hide *;
      OperatorAt(st.text, st.tp, tok, q, st.curtok, st.lasttok);
      ReadOperator(st, st.tp + 1, tok, |OpText(tok)|);
    }
  }

  lemma ReadEnd(st: State)
    requires Valid(st) && st.tp == |st.text|
    ensures ReadTok(st) == Ok(0, Advanced(st, End, st.tp))
  {
    hide Keeps, Left, StrEval, LexOperator;
  }

  lemma {:induction false} NameEndAt(text: string, i: nat, e: nat)
    requires i <= e <= |text| && (forall k :: i <= k < e ==> NameChar(text[k])) && (e == |text| || !NameChar(text[e]))
    ensures NameEnd(text, i) == e
    decreases e - i
  {
    if i < e {
      NameEndAt(text, i + 1, e);
    }
  }

  lemma {:induction false} NumEndAt(text: string, i: nat, e: nat)
    requires i <= e <= |text| && (forall k :: i <= k < e ==> NumChar(text[k])) && (e == |text| || !NumChar(text[e]))
    ensures NumEnd(text, i) == e
    decreases e - i
  {
    if i < e {
      NumEndAt(text, i + 1, e);
    }
  }

  /** A word is followed by a blank or by the end. */
  predicate Ends(text: string, p: nat) {
    p == |text| || (p < |text| && text[p] == ' ')
  }

  lemma NextEnds(text: string, p: nat, tok: Tok, q: nat)
    requires NextIs(text, p, tok, q) && p <= |text|
    ensures Ends(text, p)
  {
    if tok != End {
      HoldsParts(text, p, " ", OpText(tok));
      HoldsAt(text, p, " ", 0);
    }
  }

  lemma NameAt(text: string, p: nat, name: string)
    requires Holds(text, p, Spaced(name)) && IsNameText(name) && Ends(text, p + 1 + |name|)
    ensures var cp := p + 1;
            && SkipBlank(text, p) == cp < |text| && NameStart(text[cp])
            && NameEnd(text, cp) == cp + |name| <= |text| && text[cp..cp + |name|] == name
  {
    SpacedAt(text, p, name);
    forall k | p + 1 <= k < p + 1 + |name| ensures NameChar(text[k]) {
      HoldsAt(text, p + 1, name, k - p - 1);
    }
    NameEndAt(text, p + 1, p + 1 + |name|);
  }

  lemma LiteralAt(text: string, p: nat, lit: string)
    requires Holds(text, p, Spaced(lit)) && IsLiteralText(lit) && Ends(text, p + 1 + |lit|)
    ensures var cp := p + 1;
            && SkipBlank(text, p) == cp < |text| && IsDigit(text[cp]) && !NameStart(text[cp])
            && NumEnd(text, cp) == cp + |lit| <= |text| && text[cp..cp + |lit|] == lit
  {
    SpacedAt(text, p, lit);
    forall k | p + 1 <= k < p + 1 + |lit| ensures NumChar(text[k]) {
      HoldsAt(text, p + 1, lit, k - p - 1);
    }
    NumEndAt(text, p + 1, p + 1 + |lit|);
  }

  /** readtok at a name that ends at e, given the token that it looks ahead to. */
  lemma ReadNameAt(st: State, cp: nat, e: nat, peek: State)
    requires Valid(st) && cp == SkipBlank(st.text, st.tp) < |st.text| && NameStart(st.text[cp])
             && e == NameEnd(st.text, cp)
    requires ReadTok(st.(tp := e, noeval := 1, curtok := Str, tokstr := None)) == Ok(0, peek)
    ensures var name := st.text[cp..e];
            ReadTok(st) == ReadValue(st, name, e, peek.curtok)
  {
    hide SkipBlank, NameEnd, NumEnd, StrEval, StrLong, LexOperator, NameStart, IsDigit, Keeps, Left;
  }

  /** What readtok makes of a name that ends at e when tok comes next: the variable is evaluated on the
      spot, unless tok is `=`. */
  function ReadValue(st: State, name: string, e: nat, tok: Tok): Result
    requires Valid(st)
  {
    var value := if st.lasttok == PreInc || st.lasttok == PreDec || tok != Eq
                 then StrEval(name, st.noeval, st.depth, st.store) else Found(0, st.store);
    if value.Broken? then Fail(value.error, value.store)
    else Ok(0, Advanced(st, Str, e).(tokstr := Some(name), tokval := value.value, store := value.store))
  }

  lemma ReadName(st: State, name: string, tok: Tok, q: nat)
    requires Valid(st) && IsNameText(name) && Holds(st.text, st.tp, Spaced(name))
    requires NextIs(st.text, st.tp + 1 + |name|, tok, q) && (tok == End || Readable(tok, Str))
    ensures st.tp + 1 + |name| <= |st.text| && ReadTok(st) == ReadValue(st, name, st.tp + 1 + |name|, tok)
  {
    hide Readable, Holds, IsNameText, NameEnd, SkipBlank, ReadTok, ReadValue, NextIs, OpText, NameStart, Ends;
    var p := st.tp + 1 + |name|;
    HoldsBound(st.text, st.tp, Spaced(name));
    NextEnds(st.text, p, tok, q);
    NameAt(st.text, st.tp, name);
    var ahead := st.(tp := p, noeval := 1, curtok := Str, tokstr := None);
    ReadNext(ahead, tok, q);
    ReadNameAt(st, st.tp + 1, p, Advanced(ahead, tok, q));
  }

  lemma ReadLiteral(st: State, lit: string)
    requires Valid(st) && IsLiteralText(lit) && Holds(st.text, st.tp, Spaced(lit)) && Ends(st.text, st.tp + 1 + |lit|)
    ensures st.tp + 1 + |lit| <= |st.text|
    ensures ReadTok(st) == match StrLong(lit)
              case NoConstant => Fail(BadNumber, st.store)
              case Constant(v) => Ok(0, Advanced(st, Num, st.tp + 1 + |lit|).(tokval := v))
  {
    hide Holds, IsLiteralText, NumEnd, SkipBlank, LexOperator, StrLong, StrEval, Keeps, Left, NameStart, IsDigit;
    LiteralAt(st.text, st.tp, lit);
  }

  /** Where `++` or `--` and the name after it are. */
  lemma PreStepAt(text: string, p: nat, tok: Tok, name: string, curtok: Tok, lasttok: Tok)
    requires Holds(text, p, Spaced(OpText(tok)) + Spaced(name)) && Ends(text, p + 4 + |name|)
    requires (tok == PreInc || tok == PreDec) && IsNameText(name) && curtok != Str && curtok != Num
    ensures p + 3 <= |text| && Holds(text, p + 3, Spaced(name)) && SkipBlank(text, p) == p + 1
    ensures !NameStart(text[p + 1]) && !IsDigit(text[p + 1])
    ensures LexOperator(text, p + 1, curtok, lasttok) == Lexed(tok, 2)
  {
    hide NameEnd, IsNameText, LexChars, Holds, SkipBlank;
    HoldsParts(text, p, Spaced(OpText(tok)), Spaced(name));
    SpacedAt(text, p, OpText(tok));
    HoldsAt(text, p + 1, OpText(tok), 1);
    NameAt(text, p + 3, name);
    SkipOneBlank(text, p);
    LexPreStepChars(tok, At(text, p + 3), curtok, lasttok);
  }

  /** readtok at `++` or `--` before a name. */
  lemma ReadPreStep(st: State, tok: Tok, name: string)
    requires Ready(st) && (tok == PreInc || tok == PreDec) && IsNameText(name)
    requires Holds(st.text, st.tp, Spaced(OpText(tok)) + Spaced(name)) && Ends(st.text, st.tp + 4 + |name|)
    ensures Holds(st.text, st.tp + 3, Spaced(name))
    ensures ReadTok(st) == Ok(0, Advanced(st, tok, st.tp + 3))
  {
    hide IsNameText, LexOperator, ReadTok, Holds, SkipBlank, Ends, OpText, Spaced, NameStart, IsDigit;
    PreStepAt(st.text, st.tp, tok, name, st.curtok, st.lasttok);
    ReadOperator(st, st.tp + 1, tok, 2);
  }

  lemma LexPreStepChars(tok: Tok, c2: char, curtok: Tok, lasttok: Tok)
    requires (tok == PreInc || tok == PreDec) && curtok != Str && curtok != Num
    ensures LexChars(OpText(tok)[0], OpText(tok)[1], c2, true, curtok, lasttok) == Lexed(tok, 2)
  {
  }
}
