/** Alias expansion of a line (alias.c): a scanner that copies the line and puts the values of aliases in the
    place of tokens. Which of them are words where a command begins is told in module AliasCommands. */
module AliasExpansion {
  import opened Strings
  import opened Wrappers

  predicate Blank(c: char) {
    c == ' ' || c == '\t'
  }

  predicate SelfDelimiting(c: char) {
    c in {' ', '\t', '\n', '\r', ';', '|', '&', '(', ')'}
  }

  predicate CommandSeparator(c: char) {
    c in {'\r', '\n', ';', '|', '&', '('}
  }

  predicate QuoteChar(c: char) {
    c == '\'' || c == '"'
  }

  // ---------- the scanners, as functions ----------

  /** From i on, the first quote character like `delimiter` that no backslash is before, or the end. */
  function QuoteEnd(s: string, i: nat, delimiter: char): (e: nat)
    requires i <= |s|
    ensures i <= e <= |s| && (e < |s| ==> s[e] == delimiter)
    decreases |s| - i
  {
    if i == |s| then i
    else if s[i] == '\\' then if i + 1 == |s| then i + 1 else QuoteEnd(s, i + 2, delimiter)
    else if s[i] == delimiter then i
    else QuoteEnd(s, i + 1, delimiter)
  }

  /** Where skipws stops, and whether it has seen a separator. */
  datatype Skipped = Skipped(end: nat, separator: bool)

  /** The loop of skipws; `quoted` tells whether a word with a quoted first letter is being passed. */
  function Skip(s: string, i: nat, quoted: bool, separator: bool): (r: Skipped)
    requires i <= |s|
    ensures i <= r.end <= |s| && (r.end < |s| ==> !Blank(s[r.end]))
    ensures r.separator ==> separator || exists k :: i <= k < r.end && CommandSeparator(s[k])
    decreases |s| - i
  {
    if i == |s| then Skipped(i, separator)
    else if Blank(s[i]) then Skip(s, i + 1, false, separator)
    else if s[i] == '\\' then
      if i + 1 == |s| then Skipped(i, separator)
      else if IsAlpha(s[i + 1]) then Skip(s, i + 1, true, separator)
      else Skip(s, i + 2, quoted, separator)
    else if QuoteChar(s[i]) then
      var e := QuoteEnd(s, i + 1, s[i]);
      if e == |s| then Skipped(e, separator)
      else Skip(s, e + 1, quoted || (e + 1 < |s| && IsAlpha(s[e + 1])), separator)
    else if quoted then Skip(s, i + 1, quoted, separator)
    else if CommandSeparator(s[i]) then Skip(s, i + 1, quoted, true)
    else Skipped(i, separator)
  }

  /** The end of the token at i: the next delimiter that is not quoted. */
  function TokenEnd(s: string, i: nat): (e: nat)
    requires i <= |s|
    ensures i <= e <= |s| && (e < |s| ==> Blank(s[e]) || SelfDelimiting(s[e]))
    decreases |s| - i
  {
    if i == |s| || Blank(s[i]) || SelfDelimiting(s[i]) then i
    else if s[i] == '\\' then if i + 1 == |s| then i + 1 else TokenEnd(s, i + 2)
    else if QuoteChar(s[i]) then
      var e := QuoteEnd(s, i + 1, s[i]);
      if e == |s| then e else TokenEnd(s, e + 1)
    else TokenEnd(s, i + 1)
  }

  /** A token that is a delimiter is one character long. */
  function WordEnd(s: string, i: nat): (e: nat)
    requires i <= |s|
    ensures i <= e <= |s| && (i < |s| ==> i < e)
  {
    var e := TokenEnd(s, i);
    if e == i && i < |s| then i + 1 else e
  }

  // ---------- the scanners, as loops ----------

  /** skipquotes */
  method SkipQuotes(s: string, start: nat) returns (i: nat)
    requires start < |s|
    ensures i == QuoteEnd(s, start + 1, s[start])
  {
    i := start + 1;
    while i < |s|
      invariant start < i <= |s| && QuoteEnd(s, i, s[start]) == QuoteEnd(s, start + 1, s[start])
    {
      if s[i] == '\\' {
        i := i + 1;
        if i == |s| {
          break;
        }
      } else if s[i] == s[start] {
        return;
      }
      i := i + 1;
    }
  }

  /** skipws */
  method SkipWhite(s: string, start: nat) returns (i: nat, command: bool)
    requires start <= |s|
    ensures Skipped(i, command) == Skip(s, start, false, false)
  {
    hide QuoteEnd, IsAlpha;
    i, command := start, false;
    var pass_next, backslash_quoted_word: nat := false, 0;
    ghost var result := Skip(s, start, false, false);
    while i < |s|
      invariant start <= i <= |s| && (pass_next ==> i < |s|)
      invariant Skip(s, if pass_next then i + 1 else i, backslash_quoted_word > 0, command) == result
    {
      if pass_next {
        pass_next := false;
      } else if Blank(s[i]) {
        backslash_quoted_word := 0;
      } else if s[i] == '\\' {
        if i + 1 == |s| {
          break;
        }
        if IsAlpha(s[i + 1]) {
          backslash_quoted_word := backslash_quoted_word + 1;
        } else {
          pass_next := true;
        }
      } else if QuoteChar(s[i]) {
        i := SkipQuotes(s, i);
        if i == |s| {
          break;
        }
        if i + 1 < |s| && IsAlpha(s[i + 1]) {
          backslash_quoted_word := backslash_quoted_word + 1;
        }
      } else if backslash_quoted_word > 0 {
      } else if CommandSeparator(s[i]) {
        command := true;
      } else {
        break;
      }
      i := i + 1;
    }
  }

  /** rd_token */
  method ReadToken(s: string, start: nat) returns (i: nat)
    requires start <= |s|
    ensures i == TokenEnd(s, start)
  {
    i := start;
    while i < |s| && !Blank(s[i]) && !SelfDelimiting(s[i])
      invariant start <= i <= |s| && TokenEnd(s, i) == TokenEnd(s, start)
    {
      if s[i] == '\\' {
        i := i + 1;
        if i == |s| {
          break;
        }
      } else if QuoteChar(s[i]) {
        i := SkipQuotes(s, i);
        if i == |s| {
          break;
        }
      }
      i := i + 1;
    }
  }

  // ---------- the line in pieces ----------

  /** What one turn of the scanner takes from the line: what it skips, and the token after that. `expand`
      tells whether the scanner takes it for the first word of a command, or it is after an alias that asks for more. */
  datatype Piece = Piece(skipped: string, token: string, expand: bool, value: Option<string>)

  /** The piece that begins at i; `expand` tells whether its token is looked up whatever comes before it. */
  function PieceAt(s: string, i: nat, expand: bool, aliases: map<string, string>, all: bool): Piece
    requires i <= |s|
  {
    var skip := Skip(s, i, false, false);
    var token := s[skip.end..WordEnd(s, skip.end)];
    var looked := (expand || skip.separator || (token != "" && CommandSeparator(token[0]))) && '\\' !in token;
    Piece(s[i..skip.end], token, looked, if token != "" && (looked || all) && token in aliases
        then Some(aliases[token]) else None)
  }

  function PieceEnd(s: string, i: nat): (e: nat)
    requires i <= |s|
    ensures i <= e <= |s| && (i < |s| ==> i < e)
  {
    WordEnd(s, Skip(s, i, false, false).end)
  }

  /** An alias whose value ends in a blank asks for the next word to be expanded too. */
  predicate AsksForMore(p: Piece, all: bool) {
    p.value.Some? && (all || (p.expand && p.value.value != "" && Blank(p.value.value[|p.value.value| - 1])))
  }

  /** The pieces of the line from i on. */
  function Pieces(s: string, i: nat, expand: bool, aliases: map<string, string>, all: bool): seq<Piece>
    requires i <= |s|
    decreases |s| - i
  {
    if i == |s| then []
    else
      var p := PieceAt(s, i, expand, aliases, all);
      [p] + Pieces(s, PieceEnd(s, i), AsksForMore(p, all), aliases, all)
  }

  function Replacement(p: Piece): string {
    p.skipped + if p.value.Some? then p.value.value else p.token
  }

  function Source(pieces: seq<Piece>): string {
    if pieces == [] then "" else pieces[0].skipped + pieces[0].token + Source(pieces[1..])
  }

  function Output(pieces: seq<Piece>): string {
    if pieces == [] then "" else Replacement(pieces[0]) + Output(pieces[1..])
  }

  /** One turn of alias_expand: what it adds to the line, where it goes on, and whether the next word is to be
      expanded too. */
  method NextPiece(s: string, start: nat, command_word0: bool, expand_next0: bool, aliases: map<string, string>,
        all: bool)
    returns (text: string, i: nat, expand_next: bool)
    requires start < |s|
    ensures var p := PieceAt(s, start, command_word0 || expand_next0, aliases, all);
            text == Replacement(p) && i == PieceEnd(s, start) && expand_next == AsksForMore(p, all)
  {
    hide Skip, TokenEnd;
    ghost var p := PieceAt(s, start, command_word0 || expand_next0, aliases, all);
    var command_word, expand_next1 := command_word0, expand_next0;
    var separator;
    i, separator := SkipWhite(s, start);
    text := s[start..i];
    command_word := command_word || separator || (i < |s| && CommandSeparator(s[i]));
    var expand_this_token := command_word || expand_next1;
    expand_next := false;
    var word := i;
    i := ReadToken(s, word);
    if i == word && i < |s| {
      i := i + 1;
    }
    var token := s[word..i];
    assert i == WordEnd(s, word) && token != "" ==> token[0] == s[word];
    if '\\' in token {
      expand_this_token := false;
    }
    assert p.skipped == text && p.token == token;
    assert p.expand == expand_this_token;
    hide PieceAt;
    if token != "" && (expand_this_token || all) && token in aliases {
      var value := aliases[token];
      text := text + value;
      if (expand_this_token && value != "" && Blank(value[|value| - 1])) || all {
        expand_next := true;
      }
    } else {
      text := text + token;
    }
  }

  /** alias_expand; `all` is alias_expand_all. */
  method AliasExpand(s: string, aliases: map<string, string>, all: bool) returns (line: string)
    ensures line == Output(Pieces(s, 0, true, aliases, all))
  {
    hide Pieces, Output, PieceAt, Replacement, AsksForMore;
    line := "";
    var i, expand_next, command_word := 0, false, true;
    while i < |s|
      invariant i <= |s|
      invariant line + Output(Pieces(s, i, command_word || expand_next, aliases, all))
                == Output(Pieces(s, 0, true, aliases, all))
      decreases |s| - i
    {
      PiecesStep(s, i, command_word || expand_next, aliases, all);
      var text;
      text, i, expand_next := NextPiece(s, i, command_word, expand_next, aliases, all);
      line := line + text;
      command_word := false;
    }
    PiecesEnd(s, command_word || expand_next, aliases, all);
  }

  lemma PiecesEnd(s: string, expand: bool, aliases: map<string, string>, all: bool)
    ensures Output(Pieces(s, |s|, expand, aliases, all)) == ""
  {
  }

  lemma PiecesStep(s: string, i: nat, expand: bool, aliases: map<string, string>, all: bool)
    requires i < |s|
    ensures var p := PieceAt(s, i, expand, aliases, all);
            var rest := Pieces(s, PieceEnd(s, i), AsksForMore(p, all), aliases, all);
            Pieces(s, i, expand, aliases, all) == [p] + rest
            && Output([p] + rest) == Replacement(p) + Output(rest)
                && Source([p] + rest) == p.skipped + p.token + Source(rest)
  {
  }

  // ---------- what expansion does ----------

  lemma PieceText(s: string, i: nat, expand: bool, aliases: map<string, string>, all: bool)
    requires i <= |s|
    ensures var p := PieceAt(s, i, expand, aliases, all); p.skipped + p.token == s[i..PieceEnd(s, i)]
  {
    hide Skip, WordEnd;
  }

  /** The pieces cover the line without gaps: every character that is not in a replaced token is copied, in order. */
  lemma {:induction false} PiecesCover(s: string, i: nat, expand: bool, aliases: map<string, string>, all: bool)
    requires i <= |s|
    ensures Source(Pieces(s, i, expand, aliases, all)) == s[i..]
    decreases |s| - i
  {
    if i < |s| {
      hide Pieces, Source, PieceAt, PieceEnd, AsksForMore;
      var e := PieceEnd(s, i);
      var next := SourceStep(s, i, expand, aliases, all);
      PiecesCover(s, e, next, aliases, all);
      assert s[i..] == s[i..e] + s[e..];
    }
  }

  lemma SourceStep(s: string, i: nat, expand: bool, aliases: map<string, string>, all: bool) returns (next: bool)
    requires i < |s|
    ensures Source(Pieces(s, i, expand, aliases, all))
            == s[i..PieceEnd(s, i)] + Source(Pieces(s, PieceEnd(s, i), next, aliases, all))
  {
    hide Pieces, Source, PieceAt, PieceEnd, Output, Replacement;
    next := AsksForMore(PieceAt(s, i, expand, aliases, all), all);
    PiecesStep(s, i, expand, aliases, all);
    PieceText(s, i, expand, aliases, all);
  }

  /** A piece without its value is the text that it replaces. */
  lemma {:induction false} NothingReplaced(pieces: seq<Piece>)
    requires forall k :: 0 <= k < |pieces| ==> pieces[k].value == None
    ensures Output(pieces) == Source(pieces)
  {
    if pieces != [] {
      assert forall k :: 0 <= k < |pieces| - 1 ==> pieces[1..][k] == pieces[k + 1];
      NothingReplaced(pieces[1..]);
    }
  }

  /** A replaced token is an alias, is not empty, has no backslash, and is the first one, or a separator is in the
      text skipped before it, or it is after a value that asks for more; or all words are expanded. */
  lemma {:induction false} ReplacedAreAliases(s: string, i: nat, expand: bool, aliases: map<string, string>,
        all: bool, k: nat)
    requires i <= |s| && k < |Pieces(s, i, expand, aliases, all)|
    ensures var pieces := Pieces(s, i, expand, aliases, all);
            var p := pieces[k];
            && (p.value.Some? ==>
                    p.token != "" && p.token in aliases && p.value.value == aliases[p.token]
                    && (all || p.expand))
            && (p.value.None? && p.token != "" && p.token in aliases ==> !all && !p.expand)
            && (p.expand ==>
                  && '\\' !in p.token
                  && ((if k == 0 then expand else AsksForMore(pieces[k - 1], all))
                      || HasSeparator(p.skipped) || (p.token != "" && CommandSeparator(p.token[0]))))
    decreases |s| - i
  {
    var p := PieceAt(s, i, expand, aliases, all);
    hide Pieces, Source, Output, Skip, AsksForMore, WordEnd;
    PiecesStep(s, i, expand, aliases, all);
    if k == 0 {
      SeparatorIsThere(s, i);
    } else {
      ReplacedAreAliases(s, PieceEnd(s, i), AsksForMore(p, all), aliases, all, k - 1);
    }
  }

  predicate HasSeparator(s: string) {
    exists k :: 0 <= k < |s| && CommandSeparator(s[k])
  }

  lemma SeparatorIsThere(s: string, i: nat)
    requires i <= |s|
    ensures Skip(s, i, false, false).separator ==> HasSeparator(s[i..Skip(s, i, false, false).end])
  {
    var skip := Skip(s, i, false, false);
    if skip.separator {
      var k :| i <= k < skip.end && CommandSeparator(s[k]);
      assert s[i..skip.end][k - i] == s[k];
    }
  }

  /** Without aliases every line stays as it is, whatever its quotes and backslashes; so does a line in which no
      alias is a token. */
  lemma Unaffected(s: string, aliases: map<string, string>, all: bool)
    requires forall k :: 0 <= k < |Pieces(s, 0, true, aliases, all)| ==>
               Pieces(s, 0, true, aliases, all)[k].token !in aliases
    ensures Output(Pieces(s, 0, true, aliases, all)) == s
  {
    var pieces := Pieces(s, 0, true, aliases, all);
    hide Pieces;
    forall k | 0 <= k < |pieces| ensures pieces[k].value == None {
      ReplacedAreAliases(s, 0, true, aliases, all, k);
    }
    NothingReplaced(pieces);
    PiecesCover(s, 0, true, aliases, all);
  }

  method ExpandWithoutAliases(s: string, all: bool) returns (line: string)
    ensures line == s
  {
    line := AliasExpand(s, map[], all);
    Unaffected(s, map[], all);
  }
}
