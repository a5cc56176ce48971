/** Brace expansion (brace_expand, expand_amble, brace_gobbler and array_concat of braces.c).

    The functions say what each routine returns; the methods follow the C code and are proved
    against them. What the expansion means is stated in module BraceTree. */
module Braces {
  import opened BraceSequence
  import opened Strings
  import opened Wrappers

  predicate BraceWhitespace(c: char) {
    c == '\0' || c == ' ' || c == '\t' || c == '\n'
  }

  // ---------- the scanner ----------

  /** The local variables of brace_gobbler; `quoted` is the open quote, or NUL. */
  datatype Scan = Scan(i: nat, level: nat, quoted: char, commas: nat, passNext: bool)

  function StartAt(i: nat, satisfy: char): Scan {
    Scan(i, 0, '\0', if satisfy == '}' then 0 else 1, false)
  }

  predicate IsQuote(c: char) {
    c == '"' || c == '\'' || c == '`'
  }

  /** An opening brace that stands alone or is empty, at the start of a blank-delimited word. */
  predicate IgnoredBrace(text: string, i: nat)
    requires i < |text|
  {
    && text[i] == '{'
    && (i == 0 || BraceWhitespace(text[i - 1]))
    && (BraceWhitespace(At(text, i + 1)) || At(text, i + 1) == '}')
  }

  predicate Stops(text: string, st: Scan, satisfy: char)
    requires st.i < |text|
  {
    && !st.passNext && st.quoted == '\0' && st.level == 0 && st.commas > 0
    && text[st.i] == satisfy && !IgnoredBrace(text, st.i)
  }

  /** One pass through the loop of brace_gobbler, at a character that does not end it. */
  function Next(text: string, st: Scan, satisfy: char): (r: Scan)
    requires st.i < |text|
    ensures r.i == st.i + 1
  {
    var c := text[st.i];
    var moved := st.(i := st.i + 1);
    if st.passNext then moved.(passNext := false)
    else if c == '\\' && (st.quoted == '\0' || st.quoted == '"' || st.quoted == '`') then moved.(passNext := true)
    else if c == '$' && At(text, st.i + 1) == '{' && st.quoted != '\'' then
      moved.(passNext := true, level := if st.quoted == '\0' then st.level + 1 else st.level)
    else if st.quoted != '\0' then moved.(quoted := if c == st.quoted then '\0' else st.quoted)
    else if IsQuote(c) then moved.(quoted := c)
    else if c == satisfy && st.level == 0 && st.commas > 0 then moved
    else if c == '{' then moved.(level := st.level + 1)
    else if c == '}' && st.level > 0 then moved.(level := st.level - 1)
    else if satisfy == '}' && st.level == 0 && CountsAsSeparator(text, st.i) then moved.(commas := st.commas + 1)
    else moved
  }

  /** A comma, or ".." that is not the end of the braces. */
  predicate CountsAsSeparator(text: string, i: nat)
    requires i < |text|
  {
    text[i] == ',' || (text[i] == '.' && At(text, i + 1) == '.' && At(text, i + 2) != '}')
  }

  function Gobble(text: string, st: Scan, satisfy: char): (e: nat)
    requires st.i <= |text|
    ensures st.i <= e <= |text|
    ensures e < |text| ==> text[e] == satisfy
    decreases |text| - st.i
  {
    if st.i == |text| || Stops(text, st, satisfy) then st.i else Gobble(text, Next(text, st, satisfy), satisfy)
  }

  lemma GobbleStep(text: string, st: Scan, satisfy: char)
    requires st.i < |text|
    ensures Gobble(text, st, satisfy) == if Stops(text, st, satisfy) then st.i
            else Gobble(text, Next(text, st, satisfy), satisfy)
  {
  }

  lemma GobbleEnd(text: string, st: Scan, satisfy: char)
    requires st.i == |text|
    ensures Gobble(text, st, satisfy) == |text|
  {
  }

  /** Where brace_gobbler stops from position i; |text| when it finds nothing. */
  function Find(text: string, i: nat, satisfy: char): (e: nat)
    requires i <= |text|
    ensures i <= e <= |text|
    ensures e < |text| ==> text[e] == satisfy
  {
    Gobble(text, StartAt(i, satisfy), satisfy)
  }

  /** The opening brace of the first brace expression at or after i; |text| when there is none. */
  function FindOpen(text: string, i: nat): (k: nat)
    requires i <= |text|
    ensures i <= k <= |text|
    ensures k < |text| ==> text[k] == '{' && Find(text, k + 1, '}') < |text|
    decreases |text| - i
  {
    var k := Find(text, i, '{');
    if k == |text| || Find(text, k + 1, '}') < |text| then k else FindOpen(text, k + 1)
  }

  /** Where the search of brace_expand for a comma ends. A backslash skips two characters; quotes and braces do not
      matter. */
  function CommaScan(amble: string, j: nat): (r: nat)
    ensures r >= j
    ensures r < |amble| ==> amble[r] == ','
    decreases |amble| - j
  {
    if j >= |amble| || amble[j] == ',' then j
    else if amble[j] == '\\' then CommaScan(amble, j + 2)
    else CommaScan(amble, j + 1)
  }

  predicate HasComma(amble: string) {
    CommaScan(amble, 0) < |amble|
  }

  // ---------- which commas the two searches see ----------

  /** The number of backslashes right before position p. */
  function Backslashes(text: string, p: nat): nat
    requires p <= |text|
  {
    if p == 0 || text[p - 1] != '\\' then 0 else Backslashes(text, p - 1) + 1
  }

  /** A comma that no backslash is for; quotes and braces do not matter. */
  predicate BareComma(text: string, p: nat) {
    p < |text| && text[p] == ',' && Backslashes(text, p) % 2 == 0
  }

  /** The state of the scanner at position p. */
  function StateAt(text: string, p: nat): (st: Scan)
    requires p <= |text|
    ensures st.i == p && st.commas == 1
  {
    if p == 0 then StartAt(0, ',') else Next(text, StateAt(text, p - 1), ',')
  }

  /** A comma outside quotes and inner braces, and not after a backslash that quotes it. */
  predicate TopComma(text: string, p: nat) {
    p < |text| && text[p] == ',' && var st := StateAt(text, p); !st.passNext && st.quoted == '\0' && st.level == 0
  }

  /** At every position of an unquoted stretch the backslashes before it pair off. */
  lemma {:induction false} StatePairs(text: string, p: nat)
    requires p <= |text|
    ensures var st := StateAt(text, p);
            && (st.quoted == '\0' || IsQuote(st.quoted))
            && (st.passNext ==>
                    p > 0
                    && (if text[p - 1] == '\\' then Backslashes(text, p) % 2 == 1 else At(text, p) == '{'))
            && (!st.passNext && st.quoted != '\'' ==> Backslashes(text, p) % 2 == 0)
  {
    if p > 0 {
      StatePairs(text, p - 1);
    }
  }

  lemma TopIsBare(text: string, p: nat)
    requires TopComma(text, p)
    ensures BareComma(text, p)
  {
    StatePairs(text, p);
  }

  /** The comma search goes by backslashes alone: it comes to exactly the positions that none is for. */
  lemma {:induction false} CommaScanFinds(amble: string, j: nat)
    requires j <= |amble| ==> Backslashes(amble, j) % 2 == 0
    ensures CommaScan(amble, j) < |amble| <==> exists p :: j <= p && BareComma(amble, p)
    decreases |amble| - j
  {
    if j < |amble| {
      if amble[j] == ',' {
        assert BareComma(amble, j);
      } else if amble[j] == '\\' {
        assert j + 2 <= |amble| ==> Backslashes(amble, j + 1) == Backslashes(amble, j) + 1;
        CommaScanFinds(amble, j + 2);
        assert !BareComma(amble, j) && !BareComma(amble, j + 1);
      } else {
        CommaScanFinds(amble, j + 1);
        assert !BareComma(amble, j);
      }
    }
  }

  lemma HasCommaExactly(amble: string)
    ensures HasComma(amble) <==> exists p :: BareComma(amble, p)
  {
    CommaScanFinds(amble, 0);
  }

  lemma {:induction false} GobbleFinds(text: string, p: nat)
    requires p <= |text|
    ensures Gobble(text, StateAt(text, p), ',') < |text| <==> exists q :: p <= q && TopComma(text, q)
    decreases |text| - p
  {
    hide Gobble;
    var st := StateAt(text, p);
    if p == |text| {
      GobbleEnd(text, st, ',');
    } else {
      GobbleStep(text, st, ',');
      assert StateAt(text, p + 1) == Next(text, st, ',');
      if Stops(text, st, ',') {
        assert TopComma(text, p);
        assert Gobble(text, st, ',') == p;
      } else {
        assert !TopComma(text, p);
        GobbleFinds(text, p + 1);
      }
    }
  }

  /** The scanner finds a comma to split at exactly when one stands outside quotes, inner braces and backslashes. */
  lemma FindsCommaExactly(text: string)
    ensures Find(text, 0, ',') < |text| <==> exists p :: TopComma(text, p)
  {
    GobbleFinds(text, 0);
  }

  /** The comma search, which decides whether an amble is split, and the scanner, which splits it, agree if and
      only if there is a comma at the top, or none but those after a backslash. */
  lemma CommasAgree(amble: string)
    ensures (HasComma(amble) <==> Find(amble, 0, ',') < |amble|)
       <==> (exists p :: TopComma(amble, p)) || !exists p :: BareComma(amble, p)
  {
    HasCommaExactly(amble);
    FindsCommaExactly(amble);
    if p :| TopComma(amble, p) {
      TopIsBare(amble, p);
    }
  }

  // ---------- the expansion ----------

  function Prefixed(s: string, b: seq<string>): (r: seq<string>)
    ensures |r| == |b| && forall j :: 0 <= j < |b| ==> r[j] == s + b[j]
  {
    seq(|b|, j requires 0 <= j < |b| => s + b[j])
  }

  /** Every string of b appended to every string of a; a varies slowest. */
  function Product(a: seq<string>, b: seq<string>): (r: seq<string>) {
    if a == [] then [] else Prefixed(a[0], b) + Product(a[1..], b)
  }

  /** The list that brace_expand returns. */
  function Expand(text: string): (r: seq<string>)
    decreases |text|, 0, 0
  {
    var k := FindOpen(text, 0);
    if k == |text| then [text]
    else
      var e := Find(text, k + 1, '}');
      var amble, postamble := text[k + 1..e], text[e + 1..];
      if !HasComma(amble) && SeqTerm(amble).None? && postamble == "" then [text]
      else
        var tack :=
          if HasComma(amble) then ExpandAmble(amble, 0)
          else if SeqTerm(amble).Some? then SeqTerm(amble).value
          else [text[k..e + 1]];
        var result := Product([text[..k]], tack);
        if postamble == "" then result else Product(result, Expand(postamble))
  }

  /** The expansions of the comma-separated parts of text from position start on. */
  function ExpandAmble(text: string, start: nat): (r: seq<string>)
    requires start <= |text|
    decreases |text|, 1, |text| - start
  {
    var e := Find(text, start, ',');
    var partial := Expand(text[start..e]);
    if e == |text| then partial else partial + ExpandAmble(text, e + 1)
  }

  lemma AmbleAsOnePart(amble: string)
    requires Find(amble, 0, ',') == |amble|
    ensures ExpandAmble(amble, 0) == Expand(amble)
  {
    hide Find, Expand;
    assert amble[0..|amble|] == amble;
  }

  /** Where they do not agree, the amble is expanded as one part, and its braces are lost. */
  lemma BracesLost(text: string)
    requires FindOpen(text, 0) < |text|
    requires var k := FindOpen(text, 0); var amble := text[k + 1..Find(text, k + 1, '}')];
             !(HasComma(amble) <==> Find(amble, 0, ',') < |amble|)
    ensures var k := FindOpen(text, 0); var e := Find(text, k + 1, '}');
            var result := Product([text[..k]], Expand(text[k + 1..e]));
            Expand(text) == if text[e + 1..] == "" then result else Product(result, Expand(text[e + 1..]))
  {
    hide Find, FindOpen, HasComma, SeqTerm, Product, ExpandAmble, Expand;
    var k := FindOpen(text, 0);
    var amble := text[k + 1..Find(text, k + 1, '}')];
    CommaWithoutSplit(amble);
    AmbleAsOnePart(amble);
    ExpandWithComma(text, k, Find(text, k + 1, '}'));
  }

  lemma CommaWithoutSplit(amble: string)
    requires !(HasComma(amble) <==> Find(amble, 0, ',') < |amble|)
    ensures HasComma(amble) && Find(amble, 0, ',') == |amble|
  {
    hide Find, HasComma, BareComma, TopComma;
    CommasAgree(amble);
    HasCommaExactly(amble);
    FindsCommaExactly(amble);
  }

  lemma ExpandWithComma(text: string, k: nat, e: nat)
    requires k == FindOpen(text, 0) < |text| && e == Find(text, k + 1, '}') && HasComma(text[k + 1..e])
    ensures var result := Product([text[..k]], ExpandAmble(text[k + 1..e], 0));
            Expand(text) == if text[e + 1..] == "" then result else Product(result, Expand(text[e + 1..]))
  {
    hide Find, FindOpen, HasComma, SeqTerm, Product, ExpandAmble;
  }

  lemma NoOpening(text: string)
    requires '{' !in text
    ensures Expand(text) == [text]
  {
    hide Gobble;
    assert FindOpen(text, 0) == |text|;
  }

  const QUOTED_COMMA := "\"a,b\"..c"
  const QUOTED_COMMA_WORD := "{\"a,b\"..c}"

  lemma QuotedCommaSearches(amble: string)
    requires |amble| == 8 && amble[0] == '"' && amble[2] == ',' && forall p :: 0 <= p < 8 && p != 2 ==>
                                                                     amble[p] !in {',', '\\', '$'}
    requires amble[1] != '"'
    ensures HasComma(amble) && Find(amble, 0, ',') == |amble|
  {
    HasCommaExactly(amble);
    FindsCommaExactly(amble);
    hide Find, HasComma;
    assert BareComma(amble, 2);
    assert StateAt(amble, 1).quoted == '"';
    assert StateAt(amble, 2).quoted == '"';
    hide StateAt;
  }

  lemma QuotedCommaIsNoSequence(text: string)
    requires |text| == 8 && text[5] == text[6] == '.' && text[7] == 'c' && forall p :: 0 <= p < 5 ==> text[p] != '.'
    ensures SeqTerm(text).None?
  {
    assert FindDots(text, 3) == FindDots(text, 4) == FindDots(text, 5) == 5;
    assert FindDots(text, 0) == FindDots(text, 1) == FindDots(text, 2) == 5;
    hide FindDots, LegalNumber;
    assert text[5 + 2..] == "c";
  }

  /** A quoted character between double quotes, outside inner braces. */
  lemma PassQuotedChar(text: string, i: nat)
    requires i < |text| && text[i] !in {'"', '\\', '$'}
    ensures Gobble(text, Scan(i, 0, '"', 0, false), '}') == Gobble(text, Scan(i + 1, 0, '"', 0, false), '}')
  {
    hide Gobble;
    GobbleStep(text, Scan(i, 0, '"', 0, false), '}');
  }

  lemma QuotedCommaCloses(text: string)
    requires |text| == 10 && text[1] == text[5] == '"' && text[6] == text[7] == '.' && text[8] == 'c' && text[9] == '}'
    requires forall i :: 2 <= i < 5 ==> text[i] !in {'"', '\\', '$'}
    ensures Find(text, 1, '}') == 9
  {
    hide Gobble;
    GobbleStep(text, Scan(1, 0, '\0', 0, false), '}');
    PassQuotedChar(text, 2);
    PassQuotedChar(text, 3);
    PassQuotedChar(text, 4);
    GobbleStep(text, Scan(5, 0, '"', 0, false), '}');
    GobbleStep(text, Scan(6, 0, '\0', 0, false), '}');
    GobbleStep(text, Scan(7, 0, '\0', 1, false), '}');
    GobbleStep(text, Scan(8, 0, '\0', 1, false), '}');
    GobbleStep(text, Scan(9, 0, '\0', 1, false), '}');
  }

  lemma OpensAtOnce(text: string)
    requires text != "" && text[0] == '{' && !BraceWhitespace(At(text, 1)) && At(text, 1) != '}'
             && Find(text, 1, '}') < |text|
    ensures FindOpen(text, 0) == 0
  {
    assert Stops(text, StartAt(0, '{'), '{');
    GobbleStep(text, StartAt(0, '{'), '{');
    hide Gobble;
  }

  /** The text `{"a,b"..c}` loses its braces, although its comma is quoted and it is no sequence. */
  lemma QuotedCommaTakesBraces()
    ensures HasComma(QUOTED_COMMA) && Find(QUOTED_COMMA, 0, ',') == |QUOTED_COMMA| && SeqTerm(QUOTED_COMMA).None?
    ensures Expand(QUOTED_COMMA_WORD) == [QUOTED_COMMA]
  {
    hide Find, FindOpen, HasComma, SeqTerm, Product, Expand;
    QuotedCommaSearches(QUOTED_COMMA);
    QuotedCommaIsNoSequence(QUOTED_COMMA);
    var text := QUOTED_COMMA_WORD;
    QuotedCommaCloses(text);
    OpensAtOnce(text);
    assert text[1..9] == QUOTED_COMMA && text[10..] == "" && text[..0] == "";
    BracesLost(text);
    NoOpening(QUOTED_COMMA);
    ProductUnitLeft([QUOTED_COMMA]);
  }

  // ---------- the routines ----------

  method BraceGobbler(text: string, indx: nat, satisfy: char) returns (i: nat, c: char)
    requires indx <= |text| && satisfy in {'{', '}', ','}
    ensures i == Find(text, indx, satisfy)
    ensures c == At(text, i)
  {
    i := indx;
    var level, quoted, passNext := 0, '\0', false;
    var commas := if satisfy == '}' then 0 else 1;
    hide Gobble;
    while i < |text|
      invariant indx <= i <= |text|
      invariant Find(text, indx, satisfy) == Gobble(text, Scan(i, level, quoted, commas, passNext), satisfy)
    {
      GobbleStep(text, Scan(i, level, quoted, commas, passNext), satisfy);
      c := text[i];
      if passNext {
        passNext := false;
        i := i + 1;
        continue;
      }
      if c == '\\' && (quoted == '\0' || quoted == '"' || quoted == '`') {
        passNext := true;
        i := i + 1;
        continue;
      }
      if c == '$' && At(text, i + 1) == '{' && quoted != '\'' {
        passNext := true;
        i := i + 1;
        if quoted == '\0' {
          level := level + 1;
        }
        continue;
      }
      if quoted != '\0' {
        if c == quoted {
          quoted := '\0';
        }
        i := i + 1;
        continue;
      }
      if c == '"' || c == '\'' || c == '`' {
        quoted := c;
        i := i + 1;
        continue;
      }
      if c == satisfy && level == 0 && quoted == '\0' && commas > 0 {
        if c == '{' && (i == 0 || BraceWhitespace(text[i - 1]))
            && (BraceWhitespace(At(text, i + 1)) || At(text, i + 1) == '}') {
          i := i + 1;
          continue;
        }
        break;
      }
      if c == '{' {
        level := level + 1;
      } else if c == '}' && level > 0 {
        level := level - 1;
      } else if satisfy == '}' && c == ',' && level == 0 {
        commas := commas + 1;
      } else if satisfy == '}' && c == '.' && At(text, i + 1) == '.' && At(text, i + 2) != satisfy && level == 0 {
        commas := commas + 1;
      }
      i := i + 1;
    }
    if i == |text| {
      GobbleEnd(text, Scan(i, level, quoted, commas, passNext), satisfy);
    }
    c := At(text, i);
  }

  /** While brace_gobbler runs towards the closing brace at e, the comma search is at the same
      character (j == st.i), or one ahead because it stepped over the next one. */
  predicate Aligned(text: string, st: Scan, j: nat) {
    && (st.quoted == '\0' || IsQuote(st.quoted))
    && (|| (j == st.i && (st.passNext ==> At(text, st.i) == '{'))
        || (j == st.i + 1 && (st.passNext || st.quoted == '\'')))
  }

  lemma {:induction false} CommaScanAligned(text: string, st: Scan, from: nat, j: nat)
    requires from <= st.i <= |text| && from <= j && Aligned(text, st, j)
    requires Gobble(text, st, '}') < |text|
    ensures var amble := text[from..Gobble(text, st, '}')]; CommaScan(amble, j - from) <= |amble|
    decreases |text| - st.i
  {
    hide Gobble, Find;
    var e := Gobble(text, st, '}');
    var amble := text[from..e];
    if st.i == |text| {
      GobbleEnd(text, st, '}');
    } else {
      GobbleStep(text, st, '}');
      if !Stops(text, st, '}') {
        var next := Next(text, st, '}');
        if j == st.i + 1 {
          CommaScanAligned(text, next, from, j);
        } else if text[j] == '\\' {
          CommaScanAligned(text, next, from, j + 2);
        } else {
          CommaScanAligned(text, next, from, j + 1);
        }
        if j < e {
          assert amble[j - from] == text[j];
        }
      }
    }
  }

  /** The comma search never runs past the end of the amble, whatever quotes and backslashes it holds. */
  lemma CommaScanInBounds(text: string, from: nat)
    requires from <= |text| && Find(text, from, '}') < |text|
    ensures var amble := text[from..Find(text, from, '}')]; CommaScan(amble, 0) <= |amble|
  {
    CommaScanAligned(text, StartAt(from, '}'), from, from);
  }

  lemma {:induction false} ProductSnoc(a: seq<string>, s: string, b: seq<string>)
    ensures Product(a + [s], b) == Product(a, b) + Prefixed(s, b)
  {
    if a == [] {
      assert (a + [s])[1..] == [];
    } else {
      assert (a + [s])[1..] == a[1..] + [s];
      ProductSnoc(a[1..], s, b);
    }
  }

  lemma {:induction false} ProductUnitRight(a: seq<string>)
    ensures Product(a, [""]) == a
  {
    if a != [] {
      ProductUnitRight(a[1..]);
      assert Prefixed(a[0], [""]) == [a[0]] by {
        assert a[0] + "" == a[0];
      }
    }
  }

  lemma ProductUnitLeft(b: seq<string>)
    ensures Product([""], b) == b
  {
    assert forall j :: 0 <= j < |b| ==> "" + b[j] == b[j];
    assert Prefixed("", b) == b;
  }

  /** array_concat, with its short cuts for a single empty string. */
  method ArrayConcat(arr1: seq<string>, arr2: seq<string>) returns (result: seq<string>)
    ensures result == Product(arr1, arr2)
  {
    if |arr1| == 1 && arr1[0] == "" {
      ProductUnitLeft(arr2);
      assert arr1 == [""];
      return arr2;
    }
    if |arr2| == 1 && arr2[0] == "" {
      ProductUnitRight(arr1);
      assert arr2 == [""];
      return arr1;
    }
    result := [];
    for i := 0 to |arr1|
      invariant result == Product(arr1[..i], arr2)
    {
      ghost var before := result;
      for j := 0 to |arr2|
        invariant result == before + Prefixed(arr1[i], arr2)[..j]
      {
        result := result + [arr1[i] + arr2[j]];
      }
      ProductSnoc(arr1[..i], arr1[i], arr2);
      assert arr1[..i + 1] == arr1[..i] + [arr1[i]];
    }
    assert arr1[..|arr1|] == arr1;
  }

  method ExpandAmbleParts(text: string) returns (result: seq<string>)
    ensures result == ExpandAmble(text, 0)
    decreases |text|, 1
  {
    hide Find, Expand;
    result := [];
    var start, i, c := 0, 0, ',';
    while c != '\0'
      invariant i == start
      invariant c != '\0' ==> start <= |text| && result + ExpandAmble(text, start) == ExpandAmble(text, 0)
      invariant c == '\0' ==> result == ExpandAmble(text, 0)
      decreases if c == '\0' then 0 else |text| + 1 - start
    {
      i, c := BraceGobbler(text, i, ',');
      var tem := text[start..i];
      var partial := BraceExpand(tem);
      ghost var was := result;
      result := result + partial;
      if c != '\0' {
        assert was + (partial + ExpandAmble(text, i + 1)) == result + ExpandAmble(text, i + 1);
      }
      i := i + 1;
      start := i;
    }
  }

  /** The first loop of brace_expand: the end of the preamble. */
  method FindPreamble(text: string) returns (i: nat)
    ensures i == FindOpen(text, 0)
  {
    hide Find;
    var c;
    i := 0;
    while true
      invariant i <= |text| && FindOpen(text, i) == FindOpen(text, 0)
      decreases |text| - i
    {
      i, c := BraceGobbler(text, i, '{');
      if c == '\0' {
        break;
      }
      var j, close := BraceGobbler(text, i + 1, '}');
      if close != '\0' {
        break;
      }
      i := i + 1;
    }
  }

  /** The search of brace_expand for a comma in the amble, whose indices never pass its end. */
  method FindComma(amble: string) returns (found: bool)
    requires CommaScan(amble, 0) <= |amble|
    ensures found <==> HasComma(amble)
    ensures found <==> exists p :: BareComma(amble, p)
  {
    HasCommaExactly(amble);
    var j := 0;
    while j < |amble| && amble[j] != ','
      invariant j <= |amble| && CommaScan(amble, j) == CommaScan(amble, 0)
    {
      j := if amble[j] == '\\' then j + 2 else j + 1;
    }
    return j < |amble|;
  }

  method BraceExpand(text: string) returns (result: seq<string>)
    ensures result == Expand(text)
    decreases |text|, 0
  {
    hide Find, FindOpen, SeqTerm, HasComma, Product, ExpandAmble;
    var i := FindPreamble(text);
    var preamble := text[..i];
    result := [preamble];
    if i == |text| {
      assert preamble == text;
      return;
    }
    var start := i + 1;
    var close;
    i, close := BraceGobbler(text, start, '}');
    if close == '\0' {
      assert false; // the preamble ends at a brace that is closed
    }
    var amble, postamble := text[start..i], text[i + 1..];
    CommaScanInBounds(text, start);
    var found := FindComma(amble);
    var tack;
    if !found {
      var terms := ExpandSeqTerm(amble);
      if terms.Some? {
        tack := terms.value;
      } else if postamble != "" {
        tack := [text[start - 1..i + 1]];
      } else {
        result := [text];
        return;
      }
    } else {
      tack := ExpandAmbleParts(amble);
    }
    result := ArrayConcat(result, tack);
    if postamble != "" {
      tack := BraceExpand(postamble);
      result := ArrayConcat(result, tack);
    }
  }
}
