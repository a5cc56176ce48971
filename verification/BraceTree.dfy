/** The meaning of a brace expression, independent of how it is scanned: a tree, the text that
    prints it, and the ordered list it stands for. The main result is ExpandPrint. */
module BraceTree {
  import opened BraceSequence
  import opened Braces
  import opened Numbers
  import opened Strings
  import opened Wrappers

  /** A piece of text that holds no brace syntax: one ordinary character, a backslash with the
      character it quotes, or a quoted string. */
  datatype Lexeme = Plain(c: char) | Escaped(c: char) | Quoted(quote: char, body: string)

  /** A word: a list of lexemes, alternations of two or more words, and sequence expressions. */
  datatype Tree =
    | Done
    | Text(x: Lexeme, rest: Tree)
    | Alt(branches: Branches, rest: Tree)
    | Range(bounds: Bounds, incr: Option<intmax>, rest: Tree)

  datatype Branches = Last(branch: Tree) | More(branch: Tree, others: Branches)

  function Spell(x: Lexeme): (s: string)
    ensures |s| > 0
  {
    match x
    case Plain(c) => [c]
    case Escaped(c) => ['\\', c]
    case Quoted(quote, body) => [quote] + body + [quote]
  }

  function Print(t: Tree): string {
    match t
    case Done => ""
    case Text(x, rest) => Spell(x) + Print(rest)
    case Alt(branches, rest) => "{" + PrintBranches(branches) + "}" + Print(rest)
    case Range(bounds, incr, rest) => "{" + PrintSequence(bounds, incr) + "}" + Print(rest)
  }

  function PrintBranches(bs: Branches): string {
    match bs
    case Last(b) => Print(b)
    case More(b, others) => Print(b) + "," + PrintBranches(others)
  }

  /** Union for alternation, left-major product for juxtaposition. A sequence whose generator delivers
      nothing stands for its own text. */
  function Denote(t: Tree): (r: seq<string>) {
    match t
    case Done => [""]
    case Text(x, rest) => Product([Spell(x)], Denote(rest))
    case Alt(branches, rest) => Product(DenoteBranches(branches), Denote(rest))
    case Range(bounds, incr, rest) => Product(DenoteRange(bounds, incr), Denote(rest))
  }

  function DenoteBranches(bs: Branches): seq<string> {
    match bs
    case Last(b) => Denote(b)
    case More(b, others) => Denote(b) + DenoteBranches(others)
  }

  function DenoteRange(bounds: Bounds, incr: Option<intmax>): seq<string> {
    var lo, hi := LowBound(bounds), HighBound(bounds);
    var k := if incr.Some? then incr.value else 1;
    if Accepted(lo, hi, k) && !UnguardedDifference(lo, hi, k)
    then AllTerms(lo, hi, k, if bounds.Ints? then IntTerm else CharTerm, if bounds.Ints? then 0 else 1)
    else ["{" + PrintSequence(bounds, incr) + "}"]
  }

  function LowBound(bounds: Bounds): intmax {
    if bounds.Ints? then bounds.lo else bounds.first as int
  }

  function HighBound(bounds: Bounds): intmax {
    if bounds.Ints? then bounds.hi else bounds.last as int
  }

  // ---------- which trees are printed faithfully ----------

  /** In a branch a comma and a closing brace have to be quoted; in a word that is not one they may stand by
      themselves. */
  predicate ProperLexeme(x: Lexeme, branch: bool) {
    match x
    case Plain(c) => (branch ==> c != ',' && c != '}') && c !in {'{', '\\', '"', '\'', '`', '\0'}
    case Escaped(c) => c != '\0'
    case Quoted(quote, body) =>
      && IsQuote(quote) && quote !in body && '\0' !in body
      && (quote != '\'' ==> '\\' !in body && forall i :: 0 <= i < |body| && body[i] == '$' ==> At(body, i + 1) != '(')
  }

  /** The character d right after x would start `${`, `$(`, `<(` or `>(`. */
  predicate OpensSubstitution(x: Lexeme, d: char) {
    x.Plain? && ((x.c == '$' && (d == '{' || d == '(')) || ((x.c == '<' || x.c == '>') && d == '('))
  }

  /** A tree whose text is read as the tree; `branch` tells whether it is a branch of an alternation. */
  predicate Proper(t: Tree, branch: bool) {
    match t
    case Done => true
    case Text(x, rest) =>
      ProperLexeme(x, branch) && !OpensSubstitution(x, At(Print(rest), 0)) && Proper(rest, branch)
    case Alt(branches, rest) =>
      branches.More? && ProperBranches(branches) && Proper(rest, branch)
    case Range(bounds, incr, rest) => ProperBounds(bounds) && Proper(rest, branch)
  }

  predicate ProperBranches(bs: Branches) {
    match bs
    case Last(b) => Proper(b, true)
    case More(b, others) => Proper(b, true) && ProperBranches(others)
  }

  lemma {:induction false} AsWord(t: Tree)
    requires Proper(t, true)
    ensures Proper(t, false)
  {
    if !t.Done? {
      AsWord(t.rest);
    }
  }

  predicate EndsBlank(s: string) {
    s != "" && BraceWhitespace(s[|s| - 1])
  }

  /** No alternation that begins with a blank also has a blank before it, or nothing: the scanner ignores the brace
      of such a one. `blank` tells what is before t; each branch, and what follows a closing brace, is scanned on
      its own. */
  predicate Noticed(t: Tree, blank: bool) {
    match t
    case Done => true
    case Text(x, rest) => Noticed(rest, EndsBlank(Spell(x)))
    case Alt(branches, rest) =>
      !(blank && BraceWhitespace(At(PrintBranches(branches), 0))) && NoticedBranches(branches) && Noticed(rest, true)
    case Range(_, _, rest) => Noticed(rest, true)
  }

  predicate NoticedBranches(bs: Branches) {
    match bs
    case Last(b) => Noticed(b, true)
    case More(b, others) => Noticed(b, true) && NoticedBranches(others)
  }

  /** What is after and inside the first brace expression. */
  lemma {:induction false} NoticedCore(t: Tree, blank: bool)
    requires Noticed(t, blank)
    ensures Core(t).Alt? ==> NoticedBranches(Core(t).branches)
    ensures !Core(t).Done? ==> Noticed(Core(t).rest, true)
  {
    if t.Text? {
      NoticedCore(t.rest, EndsBlank(Spell(t.x)));
    }
  }

  // ---------- scanning over printed text ----------

  /** Outside quotes and not after a backslash. */
  predicate AtRest(st: Scan) {
    st.quoted == '\0' && !st.passNext
  }

  /** The scan from st reaches position st.i + n in the same state, but for a larger count of separators. */
  ghost predicate Passes(text: string, st: Scan, satisfy: char, n: nat, commas: nat) {
    st.i + n <= |text| && commas >= st.commas
        && Gobble(text, st, satisfy) == Gobble(text, st.(i := st.i + n, commas := commas), satisfy)
  }

  lemma {:induction false} PassQuotedBody(text: string, st: Scan, satisfy: char, end: nat)
    requires st.i <= end < |text| && IsQuote(st.quoted) && !st.passNext
    requires text[end] == st.quoted
    requires forall k :: st.i <= k < end ==> text[k] != st.quoted
    requires st.quoted != '\'' ==> forall k :: st.i <= k < end ==> text[k] != '\\'
    ensures Gobble(text, st, satisfy) == Gobble(text, st.(i := end + 1, quoted := '\0'), satisfy)
    decreases end - st.i
  {
    hide Gobble;
    GobbleStep(text, st, satisfy);
    if st.i < end {
      var next := Next(text, st, satisfy);
      if next.passNext {
        GobbleStep(text, next, satisfy);
        PassQuotedBody(text, Next(text, next, satisfy), satisfy, end);
      } else {
        PassQuotedBody(text, next, satisfy, end);
      }
    }
  }

  lemma QuotedParts(text: string, i: nat, quote: char, body: string)
    requires Holds(text, i, [quote] + body + [quote])
    ensures i + 1 + |body| < |text| && text[i] == quote && text[i + 1 + |body|] == quote
    ensures forall k :: i + 1 <= k < i + 1 + |body| ==> text[k] == body[k - i - 1]
  {
    var spelling := [quote] + body + [quote];
    forall k | 0 <= k < |spelling| ensures text[i + k] == spelling[k] {
      HoldsAt(text, i, spelling, k);
    }
    assert text[i + 0] == spelling[0];
    assert text[i + (1 + |body|)] == spelling[1 + |body|];
    forall k | i + 1 <= k < i + 1 + |body| ensures text[k] == body[k - i - 1] {
      assert text[i + (k - i)] == spelling[k - i];
    }
  }

  lemma PassQuoted(text: string, st: Scan, satisfy: char, quote: char, body: string)
    requires Holds(text, st.i, [quote] + body + [quote]) && AtRest(st)
    requires ProperLexeme(Quoted(quote, body), false)
    requires satisfy in {'{', '}', ','}
    ensures Passes(text, st, satisfy, |body| + 2, st.commas)
  {
    hide Gobble, Holds;
    QuotedParts(text, st.i, quote, body);
    GobbleStep(text, st, satisfy);
    PassQuotedBody(text, Next(text, st, satisfy), satisfy, st.i + 1 + |body|);
  }

  lemma PassLexeme(text: string, st: Scan, satisfy: char, x: Lexeme) returns (commas: nat)
    requires Holds(text, st.i, Spell(x)) && AtRest(st) && satisfy in {'{', '}', ','}
    requires ProperLexeme(x, satisfy != '{') && (satisfy == '{' ==> st.level == 0)
    requires !OpensSubstitution(x, At(text, st.i + |Spell(x)|))
    ensures Passes(text, st, satisfy, |Spell(x)|, commas)
  {
    hide Gobble;
    if x.Quoted? {
      commas := st.commas;
      PassQuoted(text, st, satisfy, x.quote, x.body);
    } else {
      HoldsAt(text, st.i, Spell(x), 0);
      GobbleStep(text, st, satisfy);
      var next := Next(text, st, satisfy);
      commas := next.commas;
      if x.Escaped? {
        GobbleStep(text, next, satisfy);
      }
    }
  }

  /** Characters of printed bounds. */
  predicate Inert(c: char) {
    IsDigit(c) || IsAlpha(c) || c == '-' || c == '.'
  }

  predicate AllInert(s: string) {
    forall k :: 0 <= k < |s| ==> Inert(s[k])
  }

  lemma {:induction false} PassInert(text: string, st: Scan, satisfy: char, n: nat) returns (commas: nat)
    requires st.i + n <= |text| && AtRest(st) && satisfy in {'{', '}', ','}
    requires forall k :: st.i <= k < st.i + n ==> Inert(text[k])
    ensures Passes(text, st, satisfy, n, commas)
    decreases n
  {
    hide Gobble;
    commas := st.commas;
    if n > 0 {
      GobbleStep(text, st, satisfy);
      commas := PassInert(text, Next(text, st, satisfy), satisfy, n - 1);
    }
  }

  lemma SequenceText(bounds: Bounds, incr: Option<intmax>)
    requires ProperBounds(bounds)
    ensures AllInert(PrintSequence(bounds, incr)) && AllInert(PrintRight(bounds) + PrintIncrement(incr))
    ensures '.' !in PrintLeft(bounds) && |PrintRight(bounds)| > 0 && |PrintLeft(bounds)| > 0
  {
    if bounds.Ints? {
      ItosText(bounds.lo);
      ItosText(bounds.hi);
    }
    if incr.Some? {
      ItosText(incr.value);
    }
    hide Itos;
    assert AllInert(PrintIncrement(incr));
    assert AllInert(PrintLeft(bounds)) && AllInert(PrintRight(bounds));
  }

  lemma HoldsAllInert(text: string, i: nat, s: string)
    requires Holds(text, i, s) && AllInert(s)
    ensures forall k :: i <= k < i + |s| ==> Inert(text[k])
  {
    forall k | i <= k < i + |s| ensures Inert(text[k]) {
      HoldsAt(text, i, s, k - i);
    }
  }

  /** What may follow a word inside a larger word: not a character that could change its reading. */
  predicate Follows(d: char) {
    d != '{' && d != '('
  }

  lemma FollowsPrint(text: string, i: nat, t: Tree, x: Lexeme)
    requires Holds(text, i, Print(t)) && Follows(At(text, i + |Print(t)|)) && !OpensSubstitution(x, At(Print(t), 0))
    ensures !OpensSubstitution(x, At(text, i))
  {
    if Print(t) != "" {
      HoldsAt(text, i, Print(t), 0);
    }
  }

  lemma StepOpen(text: string, st: Scan, satisfy: char)
    requires st.i < |text| && AtRest(st) && text[st.i] == '{' && satisfy != '{'
    ensures Gobble(text, st, satisfy) == Gobble(text, st.(i := st.i + 1, level := st.level + 1), satisfy)
  {
    GobbleStep(text, st, satisfy);
  }

  lemma StepClose(text: string, st: Scan, satisfy: char)
    requires st.i < |text| && AtRest(st) && text[st.i] == '}' && satisfy != '{' && st.level > 0
    ensures Gobble(text, st, satisfy) == Gobble(text, st.(i := st.i + 1, level := st.level - 1), satisfy)
  {
    GobbleStep(text, st, satisfy);
  }

  lemma StepComma(text: string, st: Scan, satisfy: char)
    requires st.i < |text| && AtRest(st) && text[st.i] == ',' && (satisfy == '}' || (satisfy == ',' && st.level > 0))
    ensures var more := if st.level == 0 then st.commas + 1 else st.commas;
            Gobble(text, st, satisfy) == Gobble(text, st.(i := st.i + 1, commas := more), satisfy)
  {
    GobbleStep(text, st, satisfy);
  }

  /** The text between the braces of a brace expression. */
  function Body(t: Tree): string
    requires t.Alt? || t.Range?
  {
    if t.Alt? then PrintBranches(t.branches) else PrintSequence(t.bounds, t.incr)
  }

  /** How a word is composed of its first part and the rest. */
  lemma Compose(t: Tree, branch: bool)
    requires Proper(t, branch)
    ensures t.Done? ==> Print(t) == ""
    ensures t.Text? ==>
              Print(t) == Spell(t.x) + Print(t.rest) && |Print(t)| == |Spell(t.x)| + |Print(t.rest)|
              && Proper(t.rest, branch)
    ensures t.Text? ==> ProperLexeme(t.x, branch) && !OpensSubstitution(t.x, At(Print(t.rest), 0))
    ensures t.Alt? || t.Range? ==>
              Print(t) == "{" + Body(t) + "}" + Print(t.rest) && |Print(t)| == |Body(t)| + 2 + |Print(t.rest)|
                  && Proper(t.rest, branch)
  {
  }

  /** A search for a closing brace or a comma crosses a whole word. */
  lemma {:induction false} PassTree(text: string, st: Scan, satisfy: char, t: Tree) returns (commas: nat)
    requires Holds(text, st.i, Print(t)) && Follows(At(text, st.i + |Print(t)|))
    requires AtRest(st) && Proper(t, true) && satisfy in {'}', ','}
    ensures Passes(text, st, satisfy, |Print(t)|, commas)
    decreases t, 1
  {
    hide Gobble, Next, Stops, Holds, Print, Proper, Spell, Body, At, Follows, OpensSubstitution, ProperLexeme, Passes;
    Compose(t, true);
    HoldsBound(text, st.i, Print(t));
    if t.Done? {
      commas := st.commas;
      PassesNone(text, st, satisfy);
    } else if t.Text? {
      HoldsParts(text, st.i, Spell(t.x), Print(t.rest));
      FollowsPrint(text, st.i + |Spell(t.x)|, t.rest, t.x);
      var k := PassLexeme(text, st, satisfy, t.x);
      commas := PassTree(text, st.(i := st.i + |Spell(t.x)|, commas := k), satisfy, t.rest);
      PassesOn(text, st, satisfy, |Spell(t.x)|, k, |Print(t.rest)|, commas);
    } else {
      HoldsBraces(text, st.i, Body(t), Print(t.rest));
      var k := PassBraces(text, st, satisfy, t);
      commas := PassTree(text, st.(i := st.i + |Body(t)| + 2, commas := k), satisfy, t.rest);
      PassesOn(text, st, satisfy, |Body(t)| + 2, k, |Print(t.rest)|, commas);
    }
  }

  lemma PassesNone(text: string, st: Scan, satisfy: char)
    requires st.i <= |text|
    ensures Passes(text, st, satisfy, 0, st.commas)
  {
    assert st == st.(i := st.i + 0, commas := st.commas);
  }

  lemma PassesOn(text: string, st: Scan, satisfy: char, n: nat, k: nat, m: nat, commas: nat)
    requires Passes(text, st, satisfy, n, k)
    requires Passes(text, st.(i := st.i + n, commas := k), satisfy, m, commas)
    ensures Passes(text, st, satisfy, n + m, commas)
  {
    hide Gobble;
    assert st.(i := st.i + n, commas := k).(i := st.i + n + m, commas := commas)
        == st.(i := st.i + (n + m), commas := commas);
  }

  lemma {:induction false} PassBraces(text: string, st: Scan, satisfy: char, t: Tree) returns (commas: nat)
    requires t.Alt? || t.Range?
    requires st.i < |text| && text[st.i] == '{' && Holds(text, st.i + 1, Body(t))
    requires st.i + 1 + |Body(t)| < |text| && text[st.i + 1 + |Body(t)|] == '}'
    requires AtRest(st) && Proper(t, true) && satisfy in {'}', ','}
    ensures Passes(text, st, satisfy, |Body(t)| + 2, commas)
    decreases t, 0, 1
  {
    hide Gobble, Next, Stops, Holds, Body, Proper;
    StepOpen(text, st, satisfy);
    var inner := st.(i := st.i + 1, level := st.level + 1);
    commas := PassBody(text, inner, satisfy, t);
    StepClose(text, inner.(i := inner.i + |Body(t)|, commas := commas), satisfy);
  }

  lemma {:induction false} PassBody(text: string, st: Scan, satisfy: char, t: Tree) returns (commas: nat)
    requires t.Alt? || t.Range?
    requires Holds(text, st.i, Body(t)) && st.i + |Body(t)| < |text| && text[st.i + |Body(t)|] == '}'
    requires AtRest(st) && Proper(t, true) && satisfy in {'}', ','} && st.level > 0
    ensures Passes(text, st, satisfy, |Body(t)|, commas)
    decreases t, 0, 0
  {
    hide Gobble, Next, Stops, Holds, PrintSequence, PrintBranches, ProperBranches, Passes;
    if t.Alt? {
      commas := PassBranches(text, st, satisfy, t.branches);
    } else {
      SequenceText(t.bounds, t.incr);
      HoldsAllInert(text, st.i, Body(t));
      commas := PassInert(text, st, satisfy, |Body(t)|);
    }
  }

  lemma HoldsBraces(text: string, i: nat, body: string, rest: string)
    requires Holds(text, i, "{" + body + "}" + rest)
    ensures text[i] == '{' && Holds(text, i + 1, body) && i + 1 + |body| < |text| && text[i + 1 + |body|] == '}'
    ensures Holds(text, i + |body| + 2, rest)
  {
    HoldsParts(text, i, "{" + body + "}", rest);
    HoldsParts(text, i, "{" + body, "}");
    HoldsParts(text, i, "{", body);
    HoldsAt(text, i, "{", 0);
    HoldsAt(text, i + 1 + |body|, "}", 0);
  }

  lemma HoldsComma(text: string, i: nat, a: string, b: string)
    requires Holds(text, i, a + "," + b)
    ensures Holds(text, i, a) && i + |a| < |text| && text[i + |a|] == ',' && Holds(text, i + |a| + 1, b)
  {
    HoldsParts(text, i, a + ",", b);
    HoldsParts(text, i, a, ",");
    HoldsAt(text, i + |a|, ",", 0);
  }

  /** The commas between branches end a search only at level 0 and only when a comma is looked for. */
  lemma {:induction false} PassBranches(text: string, st: Scan, satisfy: char, bs: Branches) returns (commas: nat)
    requires Holds(text, st.i, PrintBranches(bs)) && Follows(At(text, st.i + |PrintBranches(bs)|))
    requires AtRest(st) && ProperBranches(bs) && (satisfy == '}' || (satisfy == ',' && st.level > 0))
    ensures Passes(text, st, satisfy, |PrintBranches(bs)|, commas)
    ensures bs.More? && satisfy == '}' && st.level == 0 ==> commas > 0
    decreases bs
  {
    hide Gobble, Holds, Print;
    match bs
    case Last(b) => commas := PassTree(text, st, satisfy, b);
    case More(b, others) =>
      HoldsComma(text, st.i, Print(b), PrintBranches(others));
      var k := PassTree(text, st, satisfy, b);
      var mid := st.(i := st.i + |Print(b)|, commas := k);
      StepComma(text, mid, satisfy);
      var more := if st.level == 0 then k + 1 else k;
      commas := PassBranches(text, mid.(i := mid.i + 1, commas := more), satisfy, others);
  }

  // ---------- the positions that brace_expand looks for ----------

  /** From just after an opening brace, the search for its closing brace ends at the end of the body. */
  lemma FindClosing(text: string, i: nat, t: Tree)
    requires (t.Alt? || t.Range?) && Proper(t, false)
    requires Holds(text, i, Body(t)) && i + |Body(t)| < |text| && text[i + |Body(t)|] == '}'
    ensures Find(text, i, '}') == i + |Body(t)|
  {
    hide Gobble, Holds;
    var st := StartAt(i, '}');
    var commas;
    if t.Alt? {
      commas := PassBranches(text, st, '}', t.branches);
    } else {
      commas := PassSequence(text, st, t.bounds, t.incr);
    }
    GobbleStep(text, st.(i := i + |Body(t)|, commas := commas), '}');
  }

  lemma DotsOfSequence(bounds: Bounds, incr: Option<intmax>)
    requires ProperBounds(bounds)
    ensures var body, n := PrintSequence(bounds, incr), |PrintLeft(bounds)|;
            AllInert(body) && n + 2 < |body| && body[n] == '.' && body[n + 1] == '.'
  {
    hide Itos, PrintIncrement;
    SequenceText(bounds, incr);
  }

  /** The ".." of a sequence expression is a separator. */
  lemma PassSequence(text: string, st: Scan, bounds: Bounds, incr: Option<intmax>) returns (commas: nat)
    requires Holds(text, st.i, PrintSequence(bounds, incr)) && AtRest(st) && st.level == 0 && ProperBounds(bounds)
    ensures Passes(text, st, '}', |PrintSequence(bounds, incr)|, commas) && commas > 0
  {
    hide Gobble, PrintSequence, PrintLeft, Holds;
    DotsOfSequence(bounds, incr);
    var body, n := PrintSequence(bounds, incr), |PrintLeft(bounds)|;
    HoldsBound(text, st.i, body);
    HoldsAllInert(text, st.i, body);
    HoldsAt(text, st.i, body, n);
    HoldsAt(text, st.i, body, n + 1);
    assert Inert(text[st.i + n + 2]);
    var k := PassInert(text, st, '}', n);
    var mid := st.(i := st.i + n, commas := k);
    GobbleStep(text, mid, '}');
    commas := PassInert(text, Next(text, mid, '}'), '}', |body| - n - 1);
  }

  /** Within an amble, the search for a comma from the start of a branch ends at the end of the branch. */
  lemma FindBranchEnd(text: string, i: nat, t: Tree)
    requires Proper(t, true) && Holds(text, i, Print(t))
    requires i + |Print(t)| == |text| || text[i + |Print(t)|] == ','
    ensures Find(text, i, ',') == i + |Print(t)|
  {
    hide Gobble, Print, Holds;
    var st := StartAt(i, ',');
    var commas := PassTree(text, st, ',', t);
    var last := st.(i := i + |Print(t)|, commas := commas);
    if last.i == |text| {
      GobbleEnd(text, last, ',');
    } else {
      GobbleStep(text, last, ',');
    }
  }

  /** The text before the first brace expression of a word, and the word from there on. */
  function Lead(t: Tree): string {
    if t.Text? then Spell(t.x) + Lead(t.rest) else ""
  }

  function Core(t: Tree): (c: Tree)
    ensures !c.Text? && (c == t || c < t)
  {
    if t.Text? then Core(t.rest) else t
  }

  lemma {:induction false} LeadAndCore(t: Tree)
    requires Proper(t, false)
    ensures Print(t) == Lead(t) + Print(Core(t)) && Proper(Core(t), false)
  {
    hide ProperLexeme, OpensSubstitution, Spell;
    if t.Text? {
      LeadAndCore(t.rest);
      assert Print(t) == Spell(t.x) + (Lead(t.rest) + Print(Core(t)));
    }
  }

  lemma {:induction false} LeadDenotes(t: Tree)
    ensures Denote(t) == Product([Lead(t)], Denote(Core(t)))
  {
    hide Product, Spell;
    if t.Text? {
      LeadDenotes(t.rest);
      ProductAssoc([Spell(t.x)], [Lead(t.rest)], Denote(Core(t)));
      ProductSingle(Spell(t.x), Lead(t.rest));
    } else {
      ProductUnitLeft(Denote(t));
    }
  }

  lemma {:induction false} ProductAppend(a: seq<string>, b: seq<string>, c: seq<string>)
    ensures Product(a + b, c) == Product(a, c) + Product(b, c)
  {
    if a == [] {
      assert a + b == b;
    } else {
      assert (a + b)[1..] == a[1..] + b;
      ProductAppend(a[1..], b, c);
    }
  }

  lemma {:induction false} ProductAssoc(a: seq<string>, b: seq<string>, c: seq<string>)
    ensures Product(Product(a, b), c) == Product(a, Product(b, c))
  {
    if a != [] {
      ProductAppend(Prefixed(a[0], b), Product(a[1..], b), c);
      PrefixedProduct(a[0], b, c);
      ProductAssoc(a[1..], b, c);
    }
  }

  lemma {:induction false} PrefixedProduct(s: string, b: seq<string>, c: seq<string>)
    ensures Product(Prefixed(s, b), c) == Prefixed(s, Product(b, c))
  {
    if b == [] {
      assert Prefixed(s, b) == [];
      assert Prefixed(s, Product(b, c)) == [];
    } else {
      var p := Prefixed(s, b);
      assert p[1..] == Prefixed(s, b[1..]);
      PrefixedProduct(s, b[1..], c);
      assert Prefixed(s, Prefixed(b[0], c)) == Prefixed(p[0], c) by {
        forall j | 0 <= j < |c| ensures s + (b[0] + c[j]) == p[0] + c[j] {
          assert s + (b[0] + c[j]) == (s + b[0]) + c[j];
        }
      }
      assert Prefixed(s, Prefixed(b[0], c) + Product(b[1..], c))
          == Prefixed(s, Prefixed(b[0], c)) + Prefixed(s, Product(b[1..], c));
    }
  }

  /** The search for an opening brace crosses plain text and ends at the first brace expression. */
  lemma {:induction false} PassLead(text: string, st: Scan, t: Tree)
    requires st.i + |Print(t)| == |text| && Holds(text, st.i, Print(t)) && Proper(t, false)
    requires AtRest(st) && st.level == 0 && st.commas > 0
    requires Noticed(t, st.i == 0 || BraceWhitespace(text[st.i - 1]))
    ensures Gobble(text, st, '{') == st.i + |Lead(t)|
    decreases t
  {
    hide Gobble, Holds, Print, Proper, Next, OpensSubstitution, ProperLexeme, Spell, Body;
    Compose(t, false);
    if t.Done? {
      GobbleEnd(text, st, '{');
    } else if t.Text? {
      HoldsParts(text, st.i, Spell(t.x), Print(t.rest));
      FollowsPrint(text, st.i + |Spell(t.x)|, t.rest, t.x);
      HoldsAt(text, st.i, Spell(t.x), |Spell(t.x)| - 1);
      var k := PassLexeme(text, st, '{', t.x);
      PassLead(text, st.(i := st.i + |Spell(t.x)|, commas := k), t.rest);
    } else {
      HoldsBraces(text, st.i, Body(t), Print(t.rest));
      BodyStart(t, st.i == 0 || BraceWhitespace(text[st.i - 1]));
      HoldsAt(text, st.i + 1, Body(t), 0);
      GobbleStep(text, st, '{');
    }
  }

  /** The brace of such a brace expression is not one that the scanner ignores. */
  lemma BodyStart(t: Tree, blank: bool)
    requires (t.Alt? || t.Range?) && Proper(t, false) && Noticed(t, blank)
    ensures |Body(t)| > 0 && Body(t)[0] != '}' && !(blank && BraceWhitespace(Body(t)[0]))
  {
    if t.Range? {
      hide PrintIncrement, Itos;
      SequenceText(t.bounds, t.incr);
      assert Inert(Body(t)[0]);
    } else {
      var b := t.branches.branch;
      assert Body(t) == Print(b) + "," + PrintBranches(t.branches.others);
      assert Proper(b, true);
      assert b.Text? ==> Print(b)[0] == Spell(b.x)[0] && ProperLexeme(b.x, true);
      assert b.Alt? || b.Range? ==> Print(b)[0] == '{';
      assert Body(t)[0] == if Print(b) == "" then ',' else Print(b)[0];
    }
  }

  lemma FindOpening(t: Tree)
    requires Proper(t, false) && Noticed(t, true)
    ensures FindOpen(Print(t), 0) == |Lead(t)|
  {
    hide Gobble, Print, Lead, Core, Proper, Body, Denote, Noticed, Find, FindOpen, Holds;
    var text := Print(t);
    FindLead(t);
    LeadAndCore(t);
    Compose(Core(t), false);
    if Core(t).Done? {
      assert |Lead(t)| == |text|;
    } else {
      OpeningParts(t);
      FindClosing(text, |Lead(t)| + 1, Core(t));
    }
    FindOpenAt(text, |Lead(t)|);
  }

  lemma FindLead(t: Tree)
    requires Proper(t, false) && Noticed(t, true)
    ensures Find(Print(t), 0, '{') == |Lead(t)|
  {
    hide Gobble, Print, Lead, Proper, Noticed;
    var text := Print(t);
    assert text[0..|text|] == text;
    PassLead(text, StartAt(0, '{'), t);
  }

  lemma FindOpenAt(text: string, k: nat)
    requires k == Find(text, 0, '{') && (k < |text| ==> Find(text, k + 1, '}') < |text|)
    ensures FindOpen(text, 0) == k
  {
    hide Find;
  }

  lemma SliceParts(lead: string, body: string, rest: string)
    ensures var text, k := lead + ("{" + body + "}" + rest), |lead|;
            && Holds(text, k + 1, body) && k + 1 + |body| < |text| && text[k + 1 + |body|] == '}'
            && text[..k] == lead && text[k] == '{'
            && text[k + 1..k + 1 + |body|] == body && text[k + 2 + |body|..] == rest
            && text[k..k + 2 + |body|] == "{" + body + "}"
  {
  }

  /** Where the parts of a printed word are, when it has a brace expression. */
  lemma OpeningParts(t: Tree)
    requires Proper(t, false) && !Core(t).Done?
    ensures var text, k, core := Print(t), |Lead(t)|, Core(t);
            && Holds(text, k + 1, Body(core)) && k + 1 + |Body(core)| < |text| && text[k + 1 + |Body(core)|] == '}'
            && text[..k] == Lead(t) && text[k] == '{'
            && text[k + 1..k + 1 + |Body(core)|] == Body(core) && text[k + 2 + |Body(core)|..] == Print(core.rest)
            && text[k..k + 2 + |Body(core)|] == "{" + Body(core) + "}"
            && Proper(core, false) && Proper(core.rest, false)
  {
    hide Print, Proper, Body, Lead, Holds, Denote;
    LeadAndCore(t);
    Compose(Core(t), false);
    SliceParts(Lead(t), Body(Core(t)), Print(Core(t).rest));
  }

  // ---------- the comma search ----------

  /** The comma search from i finds a comma before i + n, or comes to i + n. */
  predicate CommaCrosses(text: string, i: nat, n: nat) {
    CommaScan(text, i) < i + n || CommaScan(text, i) == CommaScan(text, i + n)
  }

  lemma {:induction false} CommaCrossQuoted(text: string, j: nat, end: nat)
    requires j <= end < |text| && text[end] != '\\' && text[end] != ','
    ensures CommaCrosses(text, j, end + 1 - j)
    decreases end - j
  {
    if j < end && text[j] != ',' {
      if text[j] != '\\' {
        CommaCrossQuoted(text, j + 1, end);
      } else if j + 2 <= end {
        CommaCrossQuoted(text, j + 2, end);
      }
    }
  }

  lemma {:induction false} CommaCrossInert(text: string, i: nat, n: nat)
    requires i + n <= |text| && forall k :: i <= k < i + n ==> Inert(text[k])
    ensures CommaScan(text, i) == CommaScan(text, i + n)
    decreases n
  {
    if n > 0 {
      CommaCrossInert(text, i + 1, n - 1);
    }
  }

  lemma {:induction false} CommaCrossLexeme(text: string, i: nat, x: Lexeme)
    requires Holds(text, i, Spell(x)) && ProperLexeme(x, true)
    ensures CommaCrosses(text, i, |Spell(x)|)
  {
    HoldsAt(text, i, Spell(x), 0);
    if x.Quoted? {
      var end := i + 1 + |x.body|;
      HoldsAt(text, i, Spell(x), |x.body| + 1);
      CommaCrossQuoted(text, i + 1, end);
    }
  }

  lemma CrossesOn(text: string, i: nat, n: nat, m: nat)
    requires CommaCrosses(text, i, n) && CommaCrosses(text, i + n, m)
    ensures CommaCrosses(text, i, n + m)
  {
  }

  lemma {:induction false} CommaCrossTree(text: string, i: nat, t: Tree)
    requires Holds(text, i, Print(t)) && Proper(t, true)
    ensures CommaCrosses(text, i, |Print(t)|)
    decreases t, 1
  {
    hide Holds, Print, Proper, Spell, ProperLexeme, OpensSubstitution, Body, CommaScan;
    Compose(t, true);
    if t.Text? {
      HoldsParts(text, i, Spell(t.x), Print(t.rest));
      CommaCrossLexeme(text, i, t.x);
      CommaCrossTree(text, i + |Spell(t.x)|, t.rest);
      CrossesOn(text, i, |Spell(t.x)|, |Print(t.rest)|);
    } else if !t.Done? {
      HoldsBraces(text, i, Body(t), Print(t.rest));
      AsWord(t);
      CommaCrossBody(text, i + 1, t);
      CommaCrossBraces(text, i, |Body(t)|);
      CommaCrossTree(text, i + |Body(t)| + 2, t.rest);
      CrossesOn(text, i, |Body(t)| + 2, |Print(t.rest)|);
    }
  }

  lemma CommaCrossBraces(text: string, i: nat, n: nat)
    requires i + 1 + n < |text| && text[i] == '{' && text[i + 1 + n] == '}' && CommaCrosses(text, i + 1, n)
    ensures CommaCrosses(text, i, n + 2)
  {
  }

  lemma BodyOfAlt(t: Tree)
    requires t.Alt? && Proper(t, false)
    ensures Body(t) == PrintBranches(t.branches) && t.branches.More? && ProperBranches(t.branches)
  {
  }

  lemma ComposeBranches(bs: Branches)
    requires ProperBranches(bs)
    ensures Proper(bs.branch, true)
    ensures bs.Last? ==> PrintBranches(bs) == Print(bs.branch)
    ensures bs.More? ==>
              PrintBranches(bs) == Print(bs.branch) + "," + PrintBranches(bs.others)
              && ProperBranches(bs.others)
    ensures bs.More? ==> |PrintBranches(bs)| == |Print(bs.branch)| + 1 + |PrintBranches(bs.others)|
  {
  }

  lemma {:induction false} CommaCrossBody(text: string, i: nat, t: Tree)
    requires (t.Alt? || t.Range?) && Holds(text, i, Body(t)) && Proper(t, false)
    ensures CommaCrosses(text, i, |Body(t)|)
    ensures if t.Alt? then CommaScan(text, i) < i + |Body(t)| else CommaScan(text, i) == CommaScan(text, i + |Body(t)|)
    decreases t, 0
  {
    hide Holds, PrintSequence, PrintBranches, ProperBranches, CommaScan;
    if t.Alt? {
      BodyOfAlt(t);
      CommaInBranches(text, i, t.branches);
    } else {
      NoCommaInSequence(text, i, t.bounds, t.incr);
    }
  }

  lemma NoCommaInSequence(text: string, i: nat, bounds: Bounds, incr: Option<intmax>)
    requires Holds(text, i, PrintSequence(bounds, incr)) && ProperBounds(bounds)
    ensures CommaScan(text, i) == CommaScan(text, i + |PrintSequence(bounds, incr)|)
  {
    hide Holds, PrintSequence, CommaScan;
    SequenceText(bounds, incr);
    HoldsBound(text, i, PrintSequence(bounds, incr));
    HoldsAllInert(text, i, PrintSequence(bounds, incr));
    CommaCrossInert(text, i, |PrintSequence(bounds, incr)|);
  }

  lemma {:induction false} CommaInBranches(text: string, i: nat, bs: Branches)
    requires Holds(text, i, PrintBranches(bs)) && ProperBranches(bs) && bs.More?
    ensures CommaScan(text, i) < i + |PrintBranches(bs)|
    decreases bs
  {
    hide Holds, Print, Proper, PrintBranches, ProperBranches;
    ComposeBranches(bs);
    HoldsComma(text, i, Print(bs.branch), PrintBranches(bs.others));
    CommaCrossTree(text, i, bs.branch);
  }

  /** The amble of an alternation has an unquoted comma, that of a sequence expression has none. */
  lemma CommaOfBody(t: Tree)
    requires (t.Alt? || t.Range?) && Proper(t, false)
    ensures HasComma(Body(t)) <==> t.Alt?
  {
    CommaCrossBody(Body(t), 0, t);
  }

  // ---------- the expansion of a printed word is its denotation ----------

  lemma ExpandPlain(text: string)
    requires FindOpen(text, 0) == |text|
    ensures Expand(text) == [text]
  {
  }

  /** How brace_expand puts a word together from the parts of its first brace expression. */
  lemma ExpandParts(text: string, k: nat, tack: seq<string>)
    requires k == FindOpen(text, 0) < |text|
    requires var e := Find(text, k + 1, '}');
             var amble := text[k + 1..e];
             tack == if HasComma(amble) then ExpandAmble(amble, 0) else
                     if SeqTerm(amble).Some? then SeqTerm(amble).value else [text[k..e + 1]]
    ensures var postamble := text[Find(text, k + 1, '}') + 1..];
            Expand(text) == Product(Product([text[..k]], tack), if postamble == "" then [""] else Expand(postamble))
  {
    hide Expand, Find, FindOpen, SeqTerm, HasComma, ExpandAmble, Product;
    var e := Find(text, k + 1, '}');
    ExpandCases(text, k, e, tack);
    ProductUnitRight(Product([text[..k]], tack));
    if text[e + 1..] == "" && !HasComma(text[k + 1..e]) && SeqTerm(text[k + 1..e]).None? {
      LiteralWord(text, k, e);
    }
  }

  lemma ExpandCases(text: string, k: nat, e: nat, tack: seq<string>)
    requires k == FindOpen(text, 0) < |text| && e == Find(text, k + 1, '}')
    requires var amble := text[k + 1..e];
             tack == if HasComma(amble) then ExpandAmble(amble, 0) else
                     if SeqTerm(amble).Some? then SeqTerm(amble).value else [text[k..e + 1]]
    ensures var amble, postamble, head := text[k + 1..e], text[e + 1..], Product([text[..k]], tack);
            Expand(text) ==
            if postamble != "" then Product(head, Expand(postamble))
            else if !HasComma(amble) && SeqTerm(amble).None? then [text] else head
  {
    hide Find, FindOpen, SeqTerm, HasComma, ExpandAmble, Product;
  }

  lemma LiteralWord(text: string, k: nat, e: nat)
    requires k <= e < |text| && text[e + 1..] == ""
    ensures Product([text[..k]], [text[k..e + 1]]) == [text]
  {
    ProductSingle(text[..k], text[k..e + 1]);
    assert text[..k] + text[k..e + 1] == text;
  }

  lemma ProductSingle(s: string, u: string)
    ensures Product([s], [u]) == [s + u]
  {
    assert Prefixed(s, [u]) == [s + u];
  }

  /** What the branches or the sequence at the head of a tree stand for. */
  function DenoteBody(t: Tree): seq<string>
    requires t.Alt? || t.Range?
  {
    if t.Alt? then DenoteBranches(t.branches) else DenoteRange(t.bounds, t.incr)
  }

  /** Brace expansion of a printed word is its denotation, in order and with duplicates. */
  lemma {:induction false} ExpandPrint(t: Tree)
    requires Proper(t, false) && Noticed(t, true)
    ensures Expand(Print(t)) == Denote(t)
    decreases t, 1
  {
    hide Expand, ExpandAmble, Find, FindOpen, SeqTerm, HasComma, Print, Lead, Core, Body, Proper, Product, Holds;
    hide Denote, DenoteBody, Noticed;
    var text, k, core := Print(t), |Lead(t)|, Core(t);
    FindOpening(t);
    LeadAndCore(t);
    if core.Done? {
      ExpandWithoutBraces(t);
    } else {
      OpeningParts(t);
      NoticedCore(t, true);
      FindClosing(text, k + 1, core);
      BodyExpands(t);
      ExpandParts(text, k, DenoteBody(core));
      ExpandPrint(core.rest);
      EmptyRest(core.rest);
      DenoteOpened(t);
    }
  }

  lemma ExpandWithoutBraces(t: Tree)
    requires Proper(t, false) && Noticed(t, true) && Core(t).Done?
    ensures Expand(Print(t)) == Denote(t)
  {
    hide Expand, Print, Lead, Core, Proper, Product, Denote;
    FindOpening(t);
    LeadAndCore(t);
    LeadDenotes(t);
    Compose(Core(t), false);
    EmptyRest(Core(t));
    ProductUnitRight([Print(t)]);
    assert Lead(t) == Print(t);
    ExpandPlain(Print(t));
  }

  /** How the text between the first pair of braces expands: as an alternation, as a sequence, or to itself. */
  lemma {:induction false} BodyExpands(t: Tree)
    requires Proper(t, false) && Proper(Core(t), false) && !Core(t).Done? && Noticed(t, true)
    ensures var core := Core(t);
            DenoteBody(core) == if HasComma(Body(core)) then ExpandAmble(Body(core), 0) else
                                if SeqTerm(Body(core)).Some? then SeqTerm(Body(core)).value
                                    else ["{" + Body(core) + "}"]
    decreases t, 0
  {
    hide ExpandAmble, SeqTerm, HasComma, Body, Proper, Core, Holds, DenoteRange, DenoteBranches;
    var core := Core(t);
    CommaOfBody(core);
    NoticedCore(t, true);
    if core.Alt? {
      BodyOfAlt(core);
      HoldsWhole(Body(core));
      ExpandBranches(Body(core), 0, core.branches);
    } else {
      SequenceDenotes(core);
    }
  }

  lemma DenoteOpened(t: Tree)
    requires !Core(t).Done?
    ensures Denote(t) == Product(Product([Lead(t)], DenoteBody(Core(t))), Denote(Core(t).rest))
  {
    hide Product, Denote, DenoteBody, Lead, Core;
    LeadDenotes(t);
    DenoteBraces(Core(t));
    ProductAssoc([Lead(t)], DenoteBody(Core(t)), Denote(Core(t).rest));
  }

  lemma DenoteBraces(t: Tree)
    requires t.Alt? || t.Range?
    ensures Denote(t) == Product(DenoteBody(t), Denote(t.rest))
  {
  }

  lemma EmptyRest(t: Tree)
    requires Proper(t, false)
    ensures Print(t) == "" ==> Denote(t) == [""]
  {
  }

  lemma SequenceDenotes(t: Tree)
    requires t.Range? && Proper(t, false)
    ensures DenoteRange(t.bounds, t.incr) ==
            if SeqTerm(Body(t)).Some? then SeqTerm(Body(t)).value else ["{" + Body(t) + "}"]
  {
    hide ReadRequest, AllTerms, PrintSequence, Accepted;
    ReadPrintedSequence(t.bounds, t.incr);
  }

  lemma {:induction false} ExpandBranches(text: string, pos: nat, bs: Branches)
    requires Holds(text, pos, PrintBranches(bs)) && pos + |PrintBranches(bs)| == |text| && ProperBranches(bs)
    requires NoticedBranches(bs)
    ensures ExpandAmble(text, pos) == DenoteBranches(bs)
    decreases bs
  {
    hide Expand, Find, Print, Proper, Holds;
    var b := bs.branch;
    if bs.More? {
      HoldsComma(text, pos, Print(b), PrintBranches(bs.others));
    }
    HoldsSlice(text, pos, Print(b));
    FindBranchEnd(text, pos, b);
    AsWord(b);
    ExpandPrint(b);
    if bs.More? {
      ExpandBranches(text, pos + |Print(b)| + 1, bs.others);
    }
  }

  /** The same for the routine itself. */
  method ExpandWord(t: Tree) returns (result: seq<string>)
    requires Proper(t, false) && Noticed(t, true)
    ensures result == Denote(t)
  {
    result := BraceExpand(Print(t));
    ExpandPrint(t);
  }
}
