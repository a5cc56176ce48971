/** Words and commands of a line, told by its quotes, delimiters and separators alone, and how the tokens that the
    alias scanner looks up compare with them. */
module AliasCommands {
  import opened AliasExpansion
  import opened Strings
  import opened Wrappers

  // ---------- words and commands, without the scanners ----------

  /** What a character meets: the quote that is open, or NUL, and whether a backslash is before it. */
  datatype Lex = Lex(quote: char, escaped: bool)

  const NEUTRAL := Lex('\0', false)

  function LexNext(l: Lex, c: char): Lex {
    if l.escaped then l.(escaped := false)
    else if c == '\\' then l.(escaped := true)
    else if l.quote != '\0' then if c == l.quote then NEUTRAL else l
    else if QuoteChar(c) then Lex(c, false)
    else l
  }

  function LexAt(s: string, p: nat): Lex
    requires p <= |s|
  {
    if p == 0 then NEUTRAL else LexNext(LexAt(s, p - 1), s[p - 1])
  }

  /** Neither quoted nor after a backslash. */
  predicate Plain(s: string, p: nat) {
    p < |s| && LexAt(s, p) == NEUTRAL
  }

  predicate Delimits(s: string, p: nat) {
    Plain(s, p) && SelfDelimiting(s[p])
  }

  predicate Separates(s: string, p: nat) {
    Plain(s, p) && CommandSeparator(s[p])
  }

  /** s[k..e] is a word: delimiters, or the ends of the line, are around it, and none is in it. */
  ghost predicate WholeWord(s: string, k: nat, e: nat) {
    && k < e <= |s| && (k == 0 || Delimits(s, k - 1)) && (e == |s| || Delimits(s, e))
    && forall r :: k <= r < e ==> !Delimits(s, r)
  }

  predicate AfterSeparator(s: string, q: nat) {
    q == 0 || Separates(s, q - 1)
  }

  ghost predicate OnlyBlanks(s: string, q: nat, k: nat) {
    forall r :: q <= r < k ==> Plain(s, r) && Blank(s[r])
  }

  /** A command begins at k: only blanks are between it and a separator, or the start of the line. */
  ghost predicate CommandPosition(s: string, k: nat) {
    exists q: nat :: q <= k && AfterSeparator(s, q) && OnlyBlanks(s, q, k)
  }

  /** Where the text since the last separator in s[i..k] begins; i if there is none. */
  function Since(s: string, i: nat, k: nat): (q: nat)
    requires i <= k <= |s|
    ensures i <= q <= k && (q > i ==> Separates(s, q - 1))
  {
    if k == i then i else if Separates(s, k - 1) then k else Since(s, i, k - 1)
  }

  /** Of the text that is skipped before k there are only blanks since the last separator, and there is one unless
      the line begins there. */
  ghost predicate OnlyBlanksSince(s: string, i: nat, k: nat)
    requires i <= k <= |s|
  {
    (i == 0 || Since(s, i, k) > i) && forall r :: Since(s, i, k) <= r < k ==> Blank(s[r])
  }

  /** At g begins the letter of a word that has a quoted beginning, as the scanner takes it. */
  predicate MarksWord(s: string, g: nat) {
    && g + 1 < |s| && IsAlpha(s[g + 1])
    && ((Plain(s, g) && s[g] == '\\') || (LexAt(s, g).quote != '\0' && LexAt(s, g + 1) == NEUTRAL))
  }

  /** Since i there was such a letter, and no blank after it. */
  predicate InQuotedWord(s: string, i: nat, m: nat)
    requires m <= |s|
  {
    m > i && !(Plain(s, m - 1) && Blank(s[m - 1])) && (MarksWord(s, m - 1) || InQuotedWord(s, i, m - 1))
  }

  /** A separator that the scanner counts. */
  predicate Counts(s: string, i: nat, m: nat) {
    Separates(s, m) && !InQuotedWord(s, i, m)
  }

  ghost predicate SomeCounts(s: string, i: nat, from: nat, k: nat) {
    exists m :: from <= m < k && Counts(s, i, m)
  }

  // ---------- the scanners keep to words ----------

  lemma {:induction false} QuoteLex(s: string, i: nat, d: char)
    requires i <= |s| && LexAt(s, i) == Lex(d, false) && QuoteChar(d)
    ensures var e := QuoteEnd(s, i, d);
            && (e < |s| ==> LexAt(s, e) == Lex(d, false) && LexAt(s, e + 1) == NEUTRAL)
            && forall p :: i <= p <= e ==> LexAt(s, p).quote == d
    decreases |s| - i
  {
    if i < |s| {
      if s[i] == '\\' {
        if i + 1 < |s| {
          assert LexAt(s, i + 1).quote == d && LexAt(s, i + 2) == Lex(d, false);
          QuoteLex(s, i + 2, d);
        }
      } else if s[i] != d {
        QuoteLex(s, i + 1, d);
      }
    }
  }

  /** Inside quotes nothing changes about the word. */
  lemma {:induction false} QuotedWordKept(s: string, o: nat, i: nat, e: nat)
    requires o <= i < e <= |s| && Plain(s, i) && QuoteChar(s[i])
    requires forall p :: i < p <= e ==> LexAt(s, p).quote != '\0'
    ensures InQuotedWord(s, o, e) == InQuotedWord(s, o, i)
  {
    if e > i + 1 {
      QuotedWordKept(s, o, i, e - 1);
    }
  }

  /** Where skipws stops, and which separators it counts; o is where it began. */
  lemma {:induction false} SkipCounts(s: string, o: nat, i: nat, separator: bool)
    requires o <= i <= |s| && LexAt(s, i) == NEUTRAL
    ensures var r := Skip(s, i, InQuotedWord(s, o, i), separator);
            && (r.separator <==> separator || SomeCounts(s, o, i, r.end))
            && (r.end < |s| ==> LexAt(s, r.end) == NEUTRAL && !CommandSeparator(s[r.end]))
    decreases |s| - i
  {
    hide QuoteEnd, IsAlpha;
    var quoted := InQuotedWord(s, o, i);
    if i == |s| {
    } else if Blank(s[i]) {
      SkipCounts(s, o, i + 1, separator);
    } else if s[i] == '\\' {
      SkipBackslash(s, o, i, separator);
    } else if QuoteChar(s[i]) {
      SkipQuoted(s, o, i, separator);
    } else if quoted {
      SkipCounts(s, o, i + 1, separator);
    } else if CommandSeparator(s[i]) {
      SkipCounts(s, o, i + 1, true);
      assert Counts(s, o, i);
    }
  }

  lemma {:induction false} SkipBackslash(s: string, o: nat, i: nat, separator: bool)
    requires o <= i < |s| && LexAt(s, i) == NEUTRAL && s[i] == '\\'
    ensures var r := Skip(s, i, InQuotedWord(s, o, i), separator);
            && (r.separator <==> separator || SomeCounts(s, o, i, r.end))
            && (r.end < |s| ==> LexAt(s, r.end) == NEUTRAL && !CommandSeparator(s[r.end]))
    decreases |s| - i, 0
  {
    hide IsAlpha;
    SkipBackslashStep(s, i, InQuotedWord(s, o, i), separator);
    hide Skip;
    if i + 1 < |s| {
      WordAfterBackslash(s, o, i);
      hide InQuotedWord, LexAt;
      SkipCounts(s, o, i + 2, separator);
      assert !Counts(s, o, i) && !Counts(s, o, i + 1);
    }
  }

  lemma SkipBackslashStep(s: string, i: nat, quoted: bool, separator: bool)
    requires i < |s| && s[i] == '\\'
    ensures Skip(s, i, quoted, separator) == if i + 1 == |s| then Skipped(i, separator)
                                             else Skip(s, i + 2, quoted || IsAlpha(s[i + 1]), separator)
  {
  }

  lemma WordAfterBackslash(s: string, o: nat, i: nat)
    requires o <= i < |s| - 1 && LexAt(s, i) == NEUTRAL && s[i] == '\\'
    ensures LexAt(s, i + 1) == Lex('\0', true) && LexAt(s, i + 2) == NEUTRAL
    ensures InQuotedWord(s, o, i + 2) == (InQuotedWord(s, o, i) || IsAlpha(s[i + 1]))
  {
    hide IsAlpha;
    assert LexAt(s, i + 1) == Lex('\0', true);
    assert LexAt(s, i + 2) == NEUTRAL;
    assert InQuotedWord(s, o, i + 1) == (IsAlpha(s[i + 1]) || InQuotedWord(s, o, i));
  }

  lemma {:induction false} SkipQuoted(s: string, o: nat, i: nat, separator: bool)
    requires o <= i < |s| && LexAt(s, i) == NEUTRAL && QuoteChar(s[i])
    ensures var r := Skip(s, i, InQuotedWord(s, o, i), separator);
            && (r.separator <==> separator || SomeCounts(s, o, i, r.end))
            && (r.end < |s| ==> LexAt(s, r.end) == NEUTRAL && !CommandSeparator(s[r.end]))
    decreases |s| - i, 0
  {
    hide IsAlpha, QuoteEnd, LexAt, MarksWord, Counts;
    var e := QuoteEnd(s, i + 1, s[i]);
    QuoteOpens(s, i);
    QuoteLex(s, i + 1, s[i]);
    SkipQuoteStep(s, i, InQuotedWord(s, o, i), separator);
    hide Skip;
    NoneCounts(s, o, i, e);
    if e < |s| {
      WordAfterQuote(s, o, i, e);
      hide InQuotedWord;
      SkipCounts(s, o, e + 1, separator);
    }
  }

  lemma QuoteOpens(s: string, i: nat)
    requires i < |s| && LexAt(s, i) == NEUTRAL && QuoteChar(s[i])
    ensures LexAt(s, i + 1) == Lex(s[i], false)
  {
  }

  lemma SkipQuoteStep(s: string, i: nat, quoted: bool, separator: bool)
    requires i < |s| && QuoteChar(s[i])
    ensures var e := QuoteEnd(s, i + 1, s[i]);
            Skip(s, i, quoted, separator) == if e == |s| then Skipped(e, separator)
                                             else Skip(s, e + 1, quoted
                                                 || (e + 1 < |s| && IsAlpha(s[e + 1])), separator)
  {
    hide QuoteEnd, IsAlpha;
  }

  lemma NoneCounts(s: string, o: nat, i: nat, e: nat)
    requires i < e <= |s| && QuoteChar(s[i]) && forall p :: i < p <= e ==> LexAt(s, p).quote != '\0'
    ensures forall m :: i <= m <= e ==> !Counts(s, o, m)
  {
    hide InQuotedWord, LexAt;
  }

  lemma WordAfterQuote(s: string, o: nat, i: nat, e: nat)
    requires o <= i < e < |s| && Plain(s, i) && QuoteChar(s[i]) && LexAt(s, e + 1) == NEUTRAL
    requires forall p :: i < p <= e ==> LexAt(s, p).quote != '\0'
    ensures InQuotedWord(s, o, e + 1) == (InQuotedWord(s, o, i) || (e + 1 < |s| && IsAlpha(s[e + 1])))
  {
    hide IsAlpha, LexAt;
    QuotedWordKept(s, o, i, e);
  }

  /** No delimiter is in a token, and one is after it. */
  lemma {:induction false} TokenLex(s: string, i: nat)
    requires i <= |s| && LexAt(s, i) == NEUTRAL
    ensures var e := TokenEnd(s, i);
            (e < |s| ==> LexAt(s, e) == NEUTRAL) && forall p :: i <= p < e ==> !Delimits(s, p)
    decreases |s| - i
  {
    hide QuoteEnd;
    if i < |s| && !SelfDelimiting(s[i]) {
      if s[i] == '\\' {
        if i + 1 < |s| {
          assert LexAt(s, i + 1) == Lex('\0', true) && LexAt(s, i + 2) == NEUTRAL;
          TokenLex(s, i + 2);
        }
      } else if QuoteChar(s[i]) {
        QuoteLex(s, i + 1, s[i]);
        var e := QuoteEnd(s, i + 1, s[i]);
        if e < |s| {
          TokenLex(s, e + 1);
        }
      } else {
        TokenLex(s, i + 1);
      }
    }
  }

  /** Where a piece can begin: outside quotes, and not right after a blank or a separator. */
  predicate Fresh(s: string, i: nat)
    requires i <= |s|
  {
    i < |s| ==> LexAt(s, i) == NEUTRAL && (i > 0 ==> !Separates(s, i - 1) && !(Plain(s, i - 1) && Blank(s[i - 1])))
  }

  lemma NextIsFresh(s: string, i: nat)
    requires i < |s| && Fresh(s, i)
    ensures Fresh(s, PieceEnd(s, i))
    ensures var k := Skip(s, i, false, false).end; k < |s| ==> LexAt(s, k) == NEUTRAL
  {
    hide Skip, TokenEnd;
    SkipCounts(s, i, i, false);
    var k := Skip(s, i, false, false).end;
    if k < |s| {
      TokenLex(s, k);
      var e := PieceEnd(s, i);
      if e == TokenEnd(s, k) && e > k {
        assert !Delimits(s, e - 1);
      } else {
        assert SelfDelimiting(s[k]) && e == k + 1;
        assert LexAt(s, k + 1) == NEUTRAL;
      }
    }
  }

  /** Whether the token at k, which ends at e, is a word. */
  lemma TokenIsWord(s: string, k: nat)
    requires k < |s| && LexAt(s, k) == NEUTRAL
    ensures WholeWord(s, k, WordEnd(s, k)) <==> !SelfDelimiting(s[k]) && (k == 0 || Delimits(s, k - 1))
  {
    hide LexAt;
    TokenLex(s, k);
    hide TokenEnd;
    var e := WordEnd(s, k);
    assert SelfDelimiting(s[k]) ==> Delimits(s, k);
    assert e < |s| && !SelfDelimiting(s[k]) ==> Delimits(s, e);
  }

  /** From an unquoted place on, blanks are unquoted. */
  lemma {:induction false} BlanksArePlain(s: string, q: nat, k: nat)
    requires q <= k < |s| && LexAt(s, q) == NEUTRAL && forall r :: q <= r < k ==> Blank(s[r])
    ensures LexAt(s, k) == NEUTRAL && OnlyBlanks(s, q, k)
  {
    if q < k {
      BlanksArePlain(s, q, k - 1);
    }
  }

  lemma {:induction false} SinceOverBlanks(s: string, i: nat, q: nat, k: nat)
    requires i <= q <= k <= |s| && OnlyBlanks(s, q, k)
    ensures Since(s, i, k) == Since(s, i, q)
  {
    if q < k {
      assert Blank(s[k - 1]);
      SinceOverBlanks(s, i, q, k - 1);
    }
  }

  /** From the beginning of a piece the skipped text alone tells whether a command begins after it. */
  lemma CommandPositionExactly(s: string, i: nat, k: nat)
    requires i <= k < |s| && Fresh(s, i)
    ensures CommandPosition(s, k) <==> OnlyBlanksSince(s, i, k)
  {
    var q := Since(s, i, k);
    if OnlyBlanksSince(s, i, k) {
      assert LexAt(s, q) == NEUTRAL by {
        hide SelfDelimiting, Blank;
      }
      BlanksArePlain(s, q, k);
      assert AfterSeparator(s, q);
    }
    if CommandPosition(s, k) {
      var p: nat :| p <= k && AfterSeparator(s, p) && OnlyBlanks(s, p, k);
      assert p >= i;
      SinceOverBlanks(s, i, p, k);
      assert p > i ==> Since(s, i, p) == p;
    }
  }

  /** Where piece k of the line from i on begins. */
  function StartOf(s: string, i: nat, k: nat): (r: nat)
    requires i <= |s|
    ensures r <= |s|
    decreases k
  {
    if k == 0 then i else StartOf(s, PieceEnd(s, i), k - 1)
  }

  /** s[m..e] is a word where a command begins. */
  ghost predicate CommandWord(s: string, m: nat, e: nat) {
    WholeWord(s, m, e) && CommandPosition(s, m)
  }

  /** The token of p, which begins at `from` in the line, is looked up exactly where it was asked for or a counted
      separator is before it, and it is a word where a command begins exactly where only blanks are between it and
      the last separator, or the start of the line. */
  ghost predicate Explained(s: string, from: nat, p: Piece, asked: bool) {
    var m := from + |p.skipped|;
    var e := m + |p.token|;
    && e <= |s| && p.skipped == s[from..m] && p.token == s[m..e]
    && (p.token != "" ==>
          && (p.expand <==> '\\' !in p.token && (asked || SomeCounts(s, from, from, m)))
          && (CommandWord(s, m, e) <==> !SelfDelimiting(p.token[0]) && OnlyBlanksSince(s, from, m)))
  }

  /** Every piece of every line is explained so. */
  lemma {:induction false} LookedUpExactly(s: string, i: nat, expand: bool, aliases: map<string, string>, all: bool,
        k: nat)
    requires i <= |s| && Fresh(s, i) && k < |Pieces(s, i, expand, aliases, all)|
    ensures var pieces := Pieces(s, i, expand, aliases, all);
            Explained(s, StartOf(s, i, k), pieces[k], if k == 0 then expand else AsksForMore(pieces[k - 1], all))
    decreases |s| - i
  {
    hide Source, Output, Replacement, AsksForMore, PieceAt, PieceEnd, Explained, Fresh, Pieces;
    if i == |s| {
      NoPieces(s, expand, aliases, all);
    }
    var p := PieceAt(s, i, expand, aliases, all);
    PiecesStep(s, i, expand, aliases, all);
    if k == 0 {
      FirstLookedUp(s, i, expand, aliases, all);
    } else {
      NextIsFresh(s, i);
      LookedUpExactly(s, PieceEnd(s, i), AsksForMore(p, all), aliases, all, k - 1);
    }
  }

  lemma NoPieces(s: string, expand: bool, aliases: map<string, string>, all: bool)
    ensures Pieces(s, |s|, expand, aliases, all) == []
  {
  }

  lemma FirstLookedUp(s: string, i: nat, expand: bool, aliases: map<string, string>, all: bool)
    requires i < |s| && Fresh(s, i)
    ensures Explained(s, i, PieceAt(s, i, expand, aliases, all), expand)
  {
    hide Skip, WordEnd, OnlyBlanksSince, CommandPosition, WholeWord, Fresh, SomeCounts;
    var r := Skip(s, i, false, false);
    FreshIsNeutral(s, i);
    SkipCounts(s, i, i, false);
    if r.end < |s| {
      TokenIsWord(s, r.end);
      CommandPositionExactly(s, i, r.end);
      CommandBegins(s, r.end);
    }
  }

  lemma FreshIsNeutral(s: string, i: nat)
    requires i < |s| && Fresh(s, i)
    ensures LexAt(s, i) == NEUTRAL && !InQuotedWord(s, i, i)
  {
  }

  lemma CommandBegins(s: string, k: nat)
    ensures CommandPosition(s, k) ==> k == 0 || Delimits(s, k - 1)
  {
    if q: nat :| q <= k && AfterSeparator(s, q) && OnlyBlanks(s, q, k) {
      assert q < k ==> Plain(s, k - 1) && Blank(s[k - 1]);
    }
  }

  /** A line whose first token is its last. */
  lemma OneToken(s: string, m: nat, aliases: map<string, string>)
    requires m + 2 == |s| && s[m] == 'l' && s[m + 1] == 's' && "ls" in aliases && Skip(s, 0, false, false).end == m
    ensures Output(Pieces(s, 0, true, aliases, false)) == s[..m] + aliases["ls"]
    ensures CommandWord(s, m, |s|) <==> OnlyBlanksSince(s, 0, m)
  {
    assert TokenEnd(s, m + 1) == |s|;
    assert s[m..] == "ls" == s[m..|s|];
    hide Skip, TokenEnd, Pieces, Output, AsksForMore, Explained;
    PiecesStep(s, 0, true, aliases, false);
    PiecesEnd(s, AsksForMore(PieceAt(s, 0, true, aliases, false), false), aliases, false);
    FirstLookedUp(s, 0, true, aliases, false);
    OfExplained(s, PieceAt(s, 0, true, aliases, false));
    assert s[0..m] == s[..m];
  }

  lemma OfExplained(s: string, p: Piece)
    requires Explained(s, 0, p, true) && p.token != ""
    ensures CommandWord(s, |p.skipped|, |p.skipped| + |p.token|) <==>
            !SelfDelimiting(p.token[0]) && OnlyBlanksSince(s, 0, |p.skipped|)
  {
  }

  /** `'f' ls`: an argument is replaced, after a command that is quoted, */
  lemma QuotedCommand(s: string, aliases: map<string, string>)
    requires |s| == 6 && s[0] == s[2] == '\'' && s[1] == 'f' && s[3] == ' ' && s[4] == 'l' && s[5] == 's'
             && "ls" in aliases
    ensures Output(Pieces(s, 0, true, aliases, false)) == s[..4] + aliases["ls"] && !CommandWord(s, 4, 6)
  {
    assert QuoteEnd(s, 1, '\'') == 2;
    assert Skip(s, 3, false, false) == Skip(s, 4, false, false) == Skipped(4, false);
    OneToken(s, 4, aliases);
    assert !Blank(s[0]) && Since(s, 0, 4) == 0;
  }

  /** `;'f' ls`: also where a separator is before that command, */
  lemma QuotedCommandAfterSeparator(s: string, aliases: map<string, string>)
    requires |s| == 7 && s[0] == ';' && s[1] == s[3] == '\'' && s[2] == 'f' && s[4] == ' ' && s[5] == 'l' && s[6] == 's'
    requires "ls" in aliases
    ensures Output(Pieces(s, 0, true, aliases, false)) == s[..5] + aliases["ls"] && !CommandWord(s, 5, 7)
  {
    assert QuoteEnd(s, 2, '\'') == 3;
    assert Skip(s, 4, false, true) == Skip(s, 5, false, true) == Skipped(5, true);
    assert Skip(s, 1, false, true) == Skipped(5, true);
    OneToken(s, 5, aliases);
  }

  /** `\;ls`: and the second half of a word is. */
  lemma HalfWord(s: string, aliases: map<string, string>)
    requires |s| == 4 && s[0] == '\\' && s[1] == ';' && s[2] == 'l' && s[3] == 's' && "ls" in aliases
    ensures Output(Pieces(s, 0, true, aliases, false)) == s[..2] + aliases["ls"] && !WholeWord(s, 2, 4)
  {
    assert Skip(s, 2, false, false) == Skipped(2, false);
    OneToken(s, 2, aliases);
    assert LexAt(s, 1).escaped;
  }

  /** `a \f; ls`: a command after a separator is not replaced, where that follows a word with a quoted beginning. */
  lemma MissedCommand(s: string, aliases: map<string, string>)
    requires |s| == 8 && s[0] == 'a' && s[1] == s[5] == ' ' && s[2] == '\\' && s[3] == 'f' && s[4] == ';'
    requires s[6] == 'l' && s[7] == 's' && "a" !in aliases
    ensures Output(Pieces(s, 0, true, aliases, false)) == s && CommandWord(s, 6, 8)
  {
    MissedSkips(s);
    MissedIsCommand(s);
    assert s[0..1] == "a";
    hide Skip, TokenEnd, LexAt, Pieces, Output, CommandWord, NEUTRAL;
    var p, q := PieceAt(s, 0, true, aliases, false), PieceAt(s, 1, false, aliases, false);
    assert p.value == None && q.value == None;
    PiecesStep(s, 0, true, aliases, false);
    PiecesStep(s, 1, false, aliases, false);
    PiecesEnd(s, false, aliases, false);
    PieceText(s, 0, true, aliases, false);
    PieceText(s, 1, false, aliases, false);
    assert s[0..1] + s[1..8] == s;
  }

  lemma MissedSkips(s: string)
    requires |s| == 8 && s[0] == 'a' && s[1] == s[5] == ' ' && s[2] == '\\' && s[3] == 'f' && s[4] == ';'
             && s[6] == 'l' && s[7] == 's'
    ensures Skip(s, 0, false, false) == Skipped(0, false) && TokenEnd(s, 0) == 1
    ensures Skip(s, 1, false, false) == Skipped(6, false) && TokenEnd(s, 6) == 8
  {
    assert TokenEnd(s, 7) == 8;
    assert Skip(s, 5, true, false) == Skip(s, 6, false, false) == Skipped(6, false);
    assert Skip(s, 3, true, false) == Skip(s, 4, true, false) == Skipped(6, false);
  }

  lemma MissedIsCommand(s: string)
    requires |s| == 8 && s[0] == 'a' && s[1] == s[5] == ' ' && s[2] == '\\' && s[3] == 'f' && s[4] == ';'
             && s[6] == 'l' && s[7] == 's'
    ensures CommandWord(s, 6, 8)
  {
    assert LexAt(s, 1) == NEUTRAL;
    assert LexAt(s, 2) == NEUTRAL;
    assert LexAt(s, 3) == Lex('\0', true);
    assert LexAt(s, 4) == LexAt(s, 5) == NEUTRAL;
    assert LexAt(s, 6) == LexAt(s, 7) == NEUTRAL;
    assert AfterSeparator(s, 5) && OnlyBlanks(s, 5, 6);
  }

  // ---------- values that end in a blank, and words with something between them ----------

  /** The value of an alias asks for the next word if its last character is a blank or a tab. */
  predicate EndsInBlank(value: string) {
    value != "" && (value[|value| - 1] == ' ' || value[|value| - 1] == '\t')
  }

  /** Where nothing else makes it one, a token is looked up if and only if the token before it was looked up, is an
      alias, and has a value that ends in a blank. */
  lemma AskedForExactly(s: string, aliases: map<string, string>, k: nat)
    requires k + 1 < |Pieces(s, 0, true, aliases, false)|
    requires var q, from := Pieces(s, 0, true, aliases, false)[k + 1], StartOf(s, 0, k + 1);
             q.token != "" && '\\' !in q.token && !SomeCounts(s, from, from, from + |q.skipped|)
    ensures var p, q := Pieces(s, 0, true, aliases, false)[k], Pieces(s, 0, true, aliases, false)[k + 1];
            && (q.expand <==> p.expand && p.token in aliases && EndsInBlank(aliases[p.token]))
            && (q.value.Some? <==> q.expand && q.token in aliases)
  {
    hide Pieces, SomeCounts, StartOf;
    LookedUpExactly(s, 0, true, aliases, false, k + 1);
    ReplacedAreAliases(s, 0, true, aliases, false, k);
    ReplacedAreAliases(s, 0, true, aliases, false, k + 1);
    OnlyLastIsEmpty(s, 0, true, aliases, false, k);
  }

  lemma {:induction false} OnlyLastIsEmpty(s: string, i: nat, expand: bool, aliases: map<string, string>, all: bool,
        k: nat)
    requires i <= |s| && k + 1 < |Pieces(s, i, expand, aliases, all)|
    ensures Pieces(s, i, expand, aliases, all)[k].token != ""
    decreases k
  {
    hide Skip, AsksForMore, Output, Source, Replacement;
    if k > 0 {
      OnlyLastIsEmpty(s, PieceEnd(s, i), AsksForMore(PieceAt(s, i, expand, aliases, all), all), aliases, all, k - 1);
    }
  }

  predicate Letters(w: string) {
    w != "" && forall k :: 0 <= k < |w| ==> 'a' <= w[k] <= 'z' || 'A' <= w[k] <= 'Z'
  }

  function ValueOf(w: string, aliases: map<string, string>): string {
    if w in aliases then aliases[w] else w
  }

  lemma {:induction false} TokenOverLetters(s: string, i: nat, e: nat)
    requires i <= e <= |s| && (forall k :: i <= k < e ==> IsAlpha(s[k]))
    requires e == |s| || Blank(s[e]) || SelfDelimiting(s[e])
    ensures TokenEnd(s, i) == e
    decreases e - i
  {
    if i < e {
      assert IsAlpha(s[i]);
      TokenOverLetters(s, i + 1, e);
    }
  }

  /** One piece: what is skipped, then the token or its value, then the rest of the line. */
  lemma OnePiece(s: string, i: nat, k: nat, e: nat, separator: bool, expand: bool, aliases: map<string, string>)
    requires i <= k < e <= |s| && Skip(s, i, false, false) == Skipped(k, separator) && WordEnd(s, k) == e
    requires '\\' !in s[k..e] && !CommandSeparator(s[k])
    ensures var t, looked := s[k..e], expand || separator;
            Output(Pieces(s, i, expand, aliases, false))
            == s[i..k] + (if looked then ValueOf(t, aliases) else t)
               + Output(Pieces(s, e, looked && t in aliases && EndsInBlank(aliases[t]), aliases, false))
  {
    hide Skip, WordEnd, Pieces, Output, CommandSeparator;
    PiecesStep(s, i, expand, aliases, false);
    var p, t := PieceAt(s, i, expand, aliases, false), s[k..e];
    assert p.token == t && t[0] == s[k] && p.skipped == s[i..k] && PieceEnd(s, i) == e;
    assert p.expand == (expand || separator) && p.value == if p.expand && t in aliases then Some(aliases[t]) else None;
    hide PieceAt, PieceEnd;
    assert AsksForMore(p, false) == (p.expand && t in aliases && EndsInBlank(aliases[t]));
    assert Replacement(p) == s[i..k] + if p.expand then ValueOf(t, aliases) else t;
  }

  predicate SeparatesCommands(c: char) {
    c in {'\n', '\r', ';', '|', '&', '('}
  }

  /** Two words with one character between them. The first one is expanded; the second one is after a character that
      separates commands, and after a blank if the value of the first one asks for it. A closing parenthesis ends the
      first word and nothing more. */
  lemma TwoWordsLaw(v: string, c: char, w: string, aliases: map<string, string>)
    requires Letters(v) && Letters(w) && (c in {' ', '\t', ')'} || SeparatesCommands(c))
    requires c == ')' ==> ")" !in aliases
    ensures var asks := (c == ' ' || c == '\t') && v in aliases && EndsInBlank(aliases[v]);
            Output(Pieces(v + [c] + w, 0, true, aliases, false))
            == ValueOf(v, aliases) + [c] + if asks || SeparatesCommands(c) then ValueOf(w, aliases) else w
  {
    hide *;
    FirstOfTwo(v, c, w, aliases);
    BlankOrSeparator(c);
    if c == ')' {
      AfterParenthesis(v, w, v in aliases && EndsInBlank(aliases[v]), aliases);
    } else {
      AfterOther(v, c, w, v in aliases && EndsInBlank(aliases[v]), aliases);
    }
  }

  lemma BlankOrSeparator(c: char)
    ensures c == ' ' || c == '\t' || c == ')' ==> !SeparatesCommands(c)
  {
  }

  lemma FirstOfTwo(v: string, c: char, w: string, aliases: map<string, string>)
    requires Letters(v) && Letters(w) && (c in {' ', '\t', ')'} || SeparatesCommands(c))
    ensures Output(Pieces(v + [c] + w, 0, true, aliases, false))
            == ValueOf(v, aliases)
               + Output(Pieces(v + [c] + w, |v|, v in aliases && EndsInBlank(aliases[v]), aliases, false))
  {
    hide Pieces, Output, Letters, EndsInBlank, ValueOf, Skip, WordEnd, CommandSeparator, SeparatesCommands;
    WordsAndBetween(v, c, w);
    SlicesOfTwo(v, c, w);
    OnePiece(v + [c] + w, 0, 0, |v|, false, true, aliases);
  }

  lemma AfterParenthesis(v: string, w: string, expand: bool, aliases: map<string, string>)
    requires Letters(v) && Letters(w) && ")" !in aliases
    ensures Output(Pieces(v + [')'] + w, |v|, expand, aliases, false)) == [')'] + w
  {
    var s := v + [')'] + w;
    WordsAndBetween(v, ')', w);
    hide Pieces, Output, Letters, EndsInBlank, ValueOf, Skip, WordEnd, CommandSeparator, SeparatesCommands;
    SlicesOfTwo(v, ')', w);
    NoValue(")", aliases);
    NothingAfter(s, aliases);
    OnePiece(s, |v|, |v|, |v| + 1, false, expand, aliases);
    OnePiece(s, |v| + 1, |v| + 1, |s|, false, false, aliases);
  }

  lemma AfterOther(v: string, c: char, w: string, expand: bool, aliases: map<string, string>)
    requires Letters(v) && Letters(w) && (c in {' ', '\t'} || SeparatesCommands(c))
    ensures Output(Pieces(v + [c] + w, |v|, expand, aliases, false))
            == [c] + if expand || SeparatesCommands(c) then ValueOf(w, aliases) else w
  {
    var s := v + [c] + w;
    assert c != ')';
    hide Pieces, Output, Letters, EndsInBlank, ValueOf, Skip, WordEnd, CommandSeparator, SeparatesCommands;
    WordsAndBetween(v, c, w);
    SlicesOfTwo(v, c, w);
    NothingAfter(s, aliases);
    OnePiece(s, |v|, |v| + 1, |s|, SeparatesCommands(c), expand, aliases);
  }

  lemma SlicesOfTwo(v: string, c: char, w: string)
    ensures var s, n := v + [c] + w, |v|;
            && s[0..0] == "" && s[0..n] == v && s[n..n] == "" && s[n..n + 1] == [c]
            && s[n + 1..n + 1] == "" && s[n + 1..|s|] == w
  {
  }

  lemma NoValue(w: string, aliases: map<string, string>)
    requires w !in aliases
    ensures ValueOf(w, aliases) == w
  {
  }

  lemma NothingAfter(s: string, aliases: map<string, string>)
    ensures Output(Pieces(s, |s|, true, aliases, false)) == Output(Pieces(s, |s|, false, aliases, false)) == ""
  {
  }

  /** Where the scanner's turns end in such a line. */
  lemma WordsAndBetween(v: string, c: char, w: string)
    requires Letters(v) && Letters(w) && (c in {' ', '\t', ')'} || SeparatesCommands(c))
    ensures var s, n := v + [c] + w, |v|;
            && n > 0 && n + 1 < |s| && Skip(s, 0, false, false) == Skipped(0, false) && WordEnd(s, 0) == n
            && WordEnd(s, n + 1) == |s| && Skip(s, n + 1, false, false) == Skipped(n + 1, false)
            && !CommandSeparator(s[0]) && !CommandSeparator(s[n + 1])
            && '\\' !in s[0..n] && '\\' !in s[n + 1..|s|]
            && if c == ')' then Skip(s, n, false, false) == Skipped(n, false) && WordEnd(s, n) == n + 1
                    && !CommandSeparator(s[n]) && '\\' !in s[n..n + 1]
               else Skip(s, n, false, false) == Skipped(n + 1, SeparatesCommands(c))
  {
    var s, n := v + [c] + w, |v|;
    assert forall k :: 0 <= k < n ==> s[k] == v[k];
    assert forall j :: n + 1 <= j < |s| ==> s[j] == w[j - n - 1];
    assert s[n] == c && IsAlpha(s[0]) && IsAlpha(s[n + 1]);
    assert s[0..n] == v && s[n + 1..|s|] == w && s[n..n + 1] == [c];
    TokenOverLetters(s, 0, n);
    TokenOverLetters(s, n + 1, |s|);
    SkipNothing(s, 0);
    SkipNothing(s, n + 1);
    SkipBetween(s, n);
  }

  lemma SkipNothing(s: string, k: nat)
    requires k < |s| && (IsAlpha(s[k]) || s[k] == ')')
    ensures Skip(s, k, false, false) == Skipped(k, false) && Skip(s, k, false, true) == Skipped(k, true)
  {
  }

  lemma SkipBetween(s: string, n: nat)
    requires n + 1 < |s| && IsAlpha(s[n + 1]) && (s[n] in {' ', '\t', ')'} || SeparatesCommands(s[n]))
    ensures if s[n] == ')' then Skip(s, n, false, false) == Skipped(n, false) && WordEnd(s, n) == n + 1
            else Skip(s, n, false, false) == Skipped(n + 1, SeparatesCommands(s[n]))
  {
    SkipNothing(s, n + 1);
    if s[n] == ')' {
      assert TokenEnd(s, n) == n;
    }
  }

  /** `x";ls;"`, with either kind of quotes: what looks like a command inside them is left alone. */
  lemma QuotesLaw(q: char, aliases: map<string, string>)
    requires (q == '\'' || q == '"') && "x" + [q] + ";ls;" + [q] !in aliases
    ensures Output(Pieces("x" + [q] + ";ls;" + [q], 0, true, aliases, false)) == "x" + [q] + ";ls;" + [q]
  {
    var s := "x" + [q] + ";ls;" + [q];
    QuotedToken(s, q);
    assert s[0..7] == s && s[0..0] == "";
    hide Skip, TokenEnd, Pieces, Output;
    PiecesStep(s, 0, true, aliases, false);
    assert PieceAt(s, 0, true, aliases, false).value == None;
    PiecesEnd(s, false, aliases, false);
  }

  lemma QuotedToken(s: string, q: char)
    requires (q == '\'' || q == '"') && s == "x" + [q] + ";ls;" + [q]
    ensures |s| == 7 && Skip(s, 0, false, false) == Skipped(0, false) && TokenEnd(s, 0) == 7
  {
    assert QuoteEnd(s, 4, q) == 6;
    assert QuoteEnd(s, 2, q) == 6;
    assert TokenEnd(s, 7) == 7 && TokenEnd(s, 1) == 7;
  }

  /** `sudo ls`, with an alias for sudo whose value ends in a blank: both words are expanded. */
  lemma SudoLs(aliases: map<string, string>)
    requires "sudo" in aliases && aliases["sudo"] == "sudo " && "ls" in aliases && aliases["ls"] == "ls -l"
    ensures Output(Pieces("sudo ls", 0, true, aliases, false)) == "sudo  ls -l"
  {
    assert "sudo" + [' '] + "ls" == "sudo ls";
    assert EndsInBlank("sudo ");
    TwoWordsLaw("sudo", ' ', "ls", aliases);
    assert "sudo " + [' '] + "ls -l" == "sudo  ls -l";
  }
}
