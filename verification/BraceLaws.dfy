/** What brace expansion delivers, word by word: the characters, numbers and padded numbers of sequences, the order of
    alternations and of what is put together, and which characters a compressed name has a backslash before. */
module BraceLaws {
  import opened Numbers
  import opened BraceSequence
  import opened Braces
  import opened BraceTree
  import BraceCompletion
  import opened Strings
  import opened Wrappers

  // ---------- sequences ----------

  /** The step from first toward last: the increment's size, or 1 where there is none or it is 0. */
  function StepTo(first: int, last: int, incr: Option<intmax>): (step: int)
    ensures step != 0
  {
    var size := if incr.None? || incr.value == 0 then 1 else Abs(incr.value);
    if last < first then -size else size
  }

  function IncrementText(incr: Option<intmax>): string {
    if incr.Some? then ".." + Itos(incr.value) else ""
  }

  /** n terms with the given step go from first as far as last allows. */
  predicate GoesTo(first: int, last: int, step: int, n: int) {
    n > 0 && var t := first + (n - 1) * step; if step > 0 then t <= last < t + step else t >= last > t + step
  }

  lemma SpanGoesTo(first: intmax, last: intmax, incr: Option<intmax>)
    ensures GoesTo(first, last, StepTo(first, last, incr), Span(first, last, IncrementOf(incr)) + 1)
  {
    var step, d := StepTo(first, last, incr), Abs(last - first);
    var s, n := Abs(step), Span(first, last, IncrementOf(incr));
    DirectionIs(first, last, incr);
    hide StepTo, Direction;
    assert n == d / s;
    DivisionIs(d, s);
    SignedProduct(n, step);
  }

  lemma DivisionIs(d: nat, s: nat)
    requires s > 0
    ensures d == (d / s) * s + d % s
  {
  }

  lemma SignedProduct(n: nat, step: int)
    ensures n * step == if step < 0 then -(n * Abs(step)) else n * Abs(step)
  {
  }

  function IncrementOf(incr: Option<intmax>): intmax {
    if incr.Some? then incr.value else 1
  }

  lemma TermIs(first: intmax, last: intmax, incr: Option<intmax>, j: nat)
    requires j <= Span(first, last, IncrementOf(incr))
    ensures Term(first, last, IncrementOf(incr), j) == first + j * StepTo(first, last, incr)
  {
    DirectionIs(first, last, incr);
    hide StepTo, Direction;
    if first == last {
      assert j == 0;
    }
  }

  lemma DirectionIs(first: intmax, last: intmax, incr: Option<intmax>)
    ensures var d := Direction(first, last, IncrementOf(incr));
            var step := StepTo(first, last, incr);
            Abs(d) == Abs(step) && (first != last ==> d == step)
  {
  }

  lemma RangeExpands(b: Bounds, incr: Option<intmax>)
    requires ProperBounds(b)
    ensures Expand("{" + PrintSequence(b, incr) + "}") == DenoteRange(b, incr)
  {
    hide Expand, PrintSequence, DenoteRange;
    var t := Range(b, incr, Done);
    assert Print(t) == "{" + PrintSequence(b, incr) + "}" + "" == "{" + PrintSequence(b, incr) + "}";
    ExpandPrint(t);
    ProductUnitRight(DenoteRange(b, incr));
    assert Denote(Done) == [""];
  }

  /** `{first..last..incr}` for letters: word k is the one character whose code is first + k * step. The one exception
      is the least integer as the increment from a smaller to a larger letter. */
  lemma LettersLaw(first: char, last: char, incr: Option<intmax>)
    requires ('a' <= first <= 'z' || 'A' <= first <= 'Z') && ('a' <= last <= 'z' || 'A' <= last <= 'Z')
    requires !(first < last && incr == Some(INTMAX_MIN))
    ensures var r := Expand("{" + [first] + ".." + [last] + IncrementText(incr) + "}");
            var step := StepTo(first as int, last as int, incr);
            && GoesTo(first as int, last as int, step, |r|)
            && forall k :: 0 <= k < |r| ==> |r[k]| == 1 && r[k][0] as int == first as int + k * step
  {
    hide Expand;
    LettersAre(first, last, incr);
    SpanGoesTo(first as int, last as int, incr);
    hide AllTerms, StepTo, GoesTo, Term, Span;
    var r := Expand("{" + [first] + ".." + [last] + IncrementText(incr) + "}");
    forall k | 0 <= k < |r|
      ensures |r[k]| == 1 && r[k][0] as int == first as int + k * StepTo(first as int, last as int, incr)
    {
      TermsAre(first as int, last as int, IncrementOf(incr), CharTerm, 1, k);
      LettersInRange(first, last, incr, k);
      TermIs(first as int, last as int, incr, k);
    }
  }

  lemma LettersAre(first: char, last: char, incr: Option<intmax>)
    requires IsAlpha(first) && IsAlpha(last) && !(first < last && incr == Some(INTMAX_MIN))
    ensures var r := Expand("{" + [first] + ".." + [last] + IncrementText(incr) + "}");
            && r == AllTerms(first as int, last as int, IncrementOf(incr), CharTerm, 1)
            && |r| == Span(first as int, last as int, IncrementOf(incr)) + 1
  {
    hide Expand, Accepted, FormatTerm, Term, Span;
    var b := Letters(first, last);
    assert "{" + [first] + ".." + [last] + IncrementText(incr) + "}" == "{" + PrintSequence(b, incr) + "}";
    RangeExpands(b, incr);
    LettersAccepted(first, last, incr);
  }

  lemma TermsAre(start: int, end: int, incr: int, t: SeqType, width: nat, k: nat)
    requires k <= Span(start, end, incr)
    ensures |AllTerms(start, end, incr, t, width)| == Span(start, end, incr) + 1
    ensures AllTerms(start, end, incr, t, width)[k] == FormatTerm(t, width, Term(start, end, incr, k))
  {
    hide FormatTerm, Term, Span;
  }

  lemma LettersAccepted(first: char, last: char, incr: Option<intmax>)
    requires IsAlpha(first) && IsAlpha(last) && !(first < last && incr == Some(INTMAX_MIN))
    ensures var k := IncrementOf(incr);
            Accepted(first as int, last as int, k) && !UnguardedDifference(first as int, last as int, k)
  {
    var k := IncrementOf(incr);
    QuotientSmall(Abs(last as int - first as int), Abs(Direction(first as int, last as int, k)));
  }

  lemma QuotientSmall(d: nat, s: nat)
    requires s > 0
    ensures d / s <= d
  {
    ProductBound(d + 1, s);
    QuotientBound(d, s, d + 1);
  }

  lemma LettersInRange(first: char, last: char, incr: Option<intmax>, j: nat)
    requires IsAlpha(first) && IsAlpha(last)
    requires j <= Span(first as int, last as int, IncrementOf(incr))
    ensures 0 <= Term(first as int, last as int, IncrementOf(incr), j) < 128
  {
    TermInRange(first as int, last as int, IncrementOf(incr), j);
  }

  /** `{first..last}`: the characters from first to last, each once, in order. */
  lemma LettersExactly(first: char, last: char)
    requires ('a' <= first <= 'z' || 'A' <= first <= 'Z') && ('a' <= last <= 'z' || 'A' <= last <= 'Z')
    ensures var r := Expand("{" + [first] + ".." + [last] + "}");
            && |r| == Abs(last as int - first as int) + 1
            && forall k :: 0 <= k < |r| ==>
                 r[k] == [(if first <= last then first as int + k else first as int - k) as char]
  {
    hide Expand;
    assert "{" + [first] + ".." + [last] + IncrementText(None) + "}" == "{" + [first] + ".." + [last] + "}";
    LettersLaw(first, last, None);
  }

  /** `{lo..hi..incr}`: word k is the decimal text of lo + k * step. */
  lemma IntegersLaw(lo: intmax, hi: intmax, incr: Option<intmax>)
    requires var k := IncrementOf(incr); Accepted(lo, hi, k) && !UnguardedDifference(lo, hi, k)
    ensures var r := Expand("{" + Itos(lo) + ".." + Itos(hi) + IncrementText(incr) + "}");
            var step := StepTo(lo, hi, incr);
            GoesTo(lo, hi, step, |r|) && forall k :: 0 <= k < |r| ==> r[k] == Itos(lo + k * step)
  {
    hide Expand, Itos, Accepted, UnguardedDifference;
    var b := Ints(lo, hi);
    assert "{" + Itos(lo) + ".." + Itos(hi) + IncrementText(incr) + "}" == "{" + PrintSequence(b, incr) + "}";
    RangeExpands(b, incr);
    SpanGoesTo(lo, hi, incr);
    hide StepTo, GoesTo, Term, Span;
    var r := AllTerms(lo, hi, IncrementOf(incr), IntTerm, 0);
    forall k | 0 <= k < |r| ensures r[k] == Itos(lo + k * StepTo(lo, hi, incr)) {
      TermIs(lo, hi, incr, k);
    }
  }

  // ---------- zero padding ----------

  /** An optional minus sign and digits. */
  predicate Decimal(s: string) {
    (s != "" && s[0] == '-' && |s| > 1 && AllDigits(s[1..])) || (s != "" && AllDigits(s))
  }

  function DecimalValue(s: string): int
    requires Decimal(s)
  {
    if s[0] == '-' then 0 - DigitsValue(s[1..]) else DigitsValue(s)
  }

  /** A number that is written with a zero too many. */
  predicate Padded(s: string) {
    (|s| > 1 && s[0] == '0') || (|s| > 2 && s[0] == '-' && s[1] == '0')
  }

  /** `{left..right}` with a padded bound: the integers between the two in order, each written with as many characters
      as the longer bound has. */
  lemma PaddedLaw(left: string, right: string)
    requires Decimal(left) && Decimal(right) && (Padded(left) || Padded(right))
    requires -INT_MAX - 1 <= DecimalValue(left) <= INT_MAX && -INT_MAX - 1 <= DecimalValue(right) <= INT_MAX
    requires Abs(DecimalValue(right) - DecimalValue(left)) <= INT_MAX - 3
    ensures var lo, hi := DecimalValue(left), DecimalValue(right);
            var r := SeqTerm(left + ".." + right);
            && r.Some? && |r.value| == Abs(hi - lo) + 1
            && forall k :: 0 <= k < |r.value| ==>
                 && |r.value[k]| == (if |left| < |right| then |right| else |left|) && Decimal(r.value[k])
                 && DecimalValue(r.value[k]) == if lo <= hi then lo + k else lo - k
  {
    var lo, hi := DecimalValue(left), DecimalValue(right);
    hide ReadRequest, Decimal, DecimalValue, ZeroPad, Accepted, FormatTerm;
    PaddedRequest(left, right);
    PaddedAccepted(lo, hi);
    SpanGoesTo(lo, hi, None);
    var width := if |left| < |right| then |right| else |left|;
    var r := AllTerms(lo, hi, 1, ZeroPaddedTerm, width);
    assert |r| == Abs(hi - lo) + 1;
    forall k | 0 <= k < |r|
      ensures |r[k]| == width && Decimal(r[k]) && DecimalValue(r[k]) == if lo <= hi then lo + k else lo - k
    {
      PaddedTerm(left, right, k);
    }
  }

  lemma PaddedAccepted(lo: int, hi: int)
    requires -INT_MAX - 1 <= lo <= INT_MAX && -INT_MAX - 1 <= hi <= INT_MAX && Abs(hi - lo) <= INT_MAX - 3
    ensures Accepted(lo, hi, 1) && !UnguardedDifference(lo, hi, 1) && Span(lo, hi, 1) == Abs(hi - lo)
  {
  }

  lemma PaddedTerm(left: string, right: string, k: nat)
    requires Decimal(left) && Decimal(right)
    requires -INT_MAX - 1 <= DecimalValue(left) <= INT_MAX && -INT_MAX - 1 <= DecimalValue(right) <= INT_MAX
    requires Abs(DecimalValue(right) - DecimalValue(left)) <= INT_MAX - 3
             && k <= Abs(DecimalValue(right) - DecimalValue(left))
    ensures var lo, hi := DecimalValue(left), DecimalValue(right);
            var width := if |left| < |right| then |right| else |left|;
            var x := FormatTerm(ZeroPaddedTerm, width, Term(lo, hi, 1, k));
            |x| == width && Decimal(x) && DecimalValue(x) == if lo <= hi then lo + k else lo - k
  {
    var lo, hi := DecimalValue(left), DecimalValue(right);
    var v := if lo <= hi then lo + k else lo - k;
    assert Term(lo, hi, 1, k) == v;
    var width := if |left| < |right| then |right| else |left|;
    hide Decimal, DecimalValue, ZeroPad;
    ZeroPadIs(width, v);
    if v >= 0 {
      NoLonger(v, if lo <= hi then right else left);
    } else {
      NoLonger(v, if lo <= hi then left else right);
    }
  }

  /** A number is no longer than a text of one with the same sign that is at least as far from 0. */
  lemma NoLonger(v: int, s: string)
    requires Decimal(s) && if v >= 0 then v <= DecimalValue(s) else DecimalValue(s) <= v
    ensures |Itos(v)| <= |s|
  {
    if s[0] == '-' {
      if v < 0 {
        DigitsShort(-v, s[1..]);
      } else {
        DigitsShort(0, s[1..]);
      }
    } else {
      DigitsShort(v, s);
    }
  }

  lemma {:induction false} DigitsShort(n: nat, s: string)
    requires s != "" && AllDigits(s) && n <= DigitsValue(s)
    ensures |Digits(n)| <= |s|
    decreases |s|
  {
    if n >= 10 {
      OneDigitIsSmall(s);
      DigitsShort(n / 10, s[..|s| - 1]);
    }
  }

  lemma OneDigitIsSmall(s: string)
    requires AllDigits(s) && s != ""
    ensures |s| == 1 ==> DigitsValue(s) < 10
  {
  }

  /** ZeroPad keeps the value and fills up to the width. */
  lemma ZeroPadIs(width: nat, v: int)
    ensures var x := ZeroPad(width, v);
            Decimal(x) && DecimalValue(x) == v && |x| == if |Itos(v)| < width then width else |Itos(v)|
  {
    var digits := Digits(Abs(v));
    var length := |digits| + if v < 0 then 1 else 0;
    var zeros := if length < width then width - length else 0;
    hide ZeroPad, Digits, DigitsValue, Repeat, Decimal, DecimalValue, Itos, AllDigits;
    ZeroPadParts(width, v);
    DigitsRoundTrip(Abs(v));
    LeadingZeros(zeros, digits);
    ItosLength(v);
    SignedDigits(v < 0, Repeat('0', zeros) + digits);
  }

  lemma ItosLength(v: int)
    ensures |Itos(v)| == |Digits(Abs(v))| + if v < 0 then 1 else 0
  {
    hide Digits;
  }

  lemma ZeroPadParts(width: nat, v: int)
    ensures var digits := Digits(Abs(v));
            var length := |digits| + if v < 0 then 1 else 0;
            var zeros := if length < width then width - length else 0;
            |Repeat('0', zeros)| == zeros
            && ZeroPad(width, v) == (if v < 0 then "-" else "") + (Repeat('0', zeros) + digits)
  {
    hide Digits;
  }

  lemma SignedDigits(negative: bool, digits: string)
    requires digits != "" && AllDigits(digits)
    ensures var s := (if negative then "-" else "") + digits;
            && |s| == |digits| + (if negative then 1 else 0)
            && Decimal(s) && DecimalValue(s) == if negative then 0 - DigitsValue(digits) else DigitsValue(digits)
  {
    hide DigitsValue;
    if negative {
      assert ("-" + digits)[1..] == digits;
    } else {
      assert "" + digits == digits && IsDigit(digits[0]);
    }
  }

  lemma {:induction false} LeadingZeros(zeros: nat, digits: string)
    requires AllDigits(digits)
    ensures var s := Repeat('0', zeros) + digits; AllDigits(s) && DigitsValue(s) == DigitsValue(digits)
    decreases |digits|
  {
    var s := Repeat('0', zeros) + digits;
    if digits == "" {
      AllZeros(zeros);
      assert s == Repeat('0', zeros);
    } else {
      LeadingZeros(zeros, digits[..|digits| - 1]);
      assert s[..|s| - 1] == Repeat('0', zeros) + digits[..|digits| - 1];
    }
  }

  lemma {:induction false} AllZeros(zeros: nat)
    ensures AllDigits(Repeat('0', zeros)) && DigitsValue(Repeat('0', zeros)) == 0
  {
    if zeros > 0 {
      var s := Repeat('0', zeros);
      assert s[..|s| - 1] == Repeat('0', zeros - 1);
      AllZeros(zeros - 1);
    }
  }

  /** How such a text is read. */
  lemma PaddedRequest(left: string, right: string)
    requires Decimal(left) && Decimal(right) && (Padded(left) || Padded(right))
    requires INTMAX_MIN <= DecimalValue(left) <= INTMAX_MAX && INTMAX_MIN <= DecimalValue(right) <= INTMAX_MAX
    ensures ReadRequest(left + ".." + right)
            == Some(Request(DecimalValue(left), DecimalValue(right), 1, ZeroPaddedTerm,
                            if |left| < |right| then |right| else |left|))
  {
    DecimalReads(left);
    DecimalReads(right);
    SplitAtDots(left, right);
    hide StrToImax, FindDots, DecimalValue;
    assert right[..|right|] == right;
  }

  lemma DecimalReads(s: string)
    requires Decimal(s) && INTMAX_MIN <= DecimalValue(s) <= INTMAX_MAX
    ensures StrToImax(s) == Parsed(DecimalValue(s), |s|, false) && '.' !in s && |s| > 0
    ensures IsDigit(s[0]) || (s[0] == '-' && |s| > 1 && IsDigit(s[1]))
  {
    assert SkipSpaces(s, 0) == 0;
    if s[0] == '-' {
      assert s[1..|s|] == s[1..] && s[1..][0] == s[1];
      DigitsEndUnique(s, 1, |s|);
      assert forall k :: 1 <= k < |s| ==> s[k] == s[1..][k - 1];
    } else {
      assert s[0..|s|] == s;
      DigitsEndUnique(s, 0, |s|);
    }
  }

  // ---------- order ----------

  /** Word i of the left list with word j of the right one stands at i * |b| + j. */
  lemma {:induction false} ProductAt(a: seq<string>, b: seq<string>, i: nat, j: nat)
    requires i < |a| && j < |b|
    ensures |Product(a, b)| == |a| * |b| && i * |b| + j < |Product(a, b)|
    ensures Product(a, b)[i * |b| + j] == a[i] + b[j]
    decreases |a|
  {
    ProductSize(a, b);
    ProductSize(a[1..], b);
    if i == 0 {
      assert |Product(a, b)| == |b| + |a[1..]| * |b|;
    } else {
      ProductAt(a[1..], b, i - 1, j);
      assert i * |b| + j == |b| + ((i - 1) * |b| + j);
    }
  }

  lemma {:induction false} ProductSize(a: seq<string>, b: seq<string>)
    ensures |Product(a, b)| == |a| * |b|
    decreases |a|
  {
    if a != [] {
      ProductSize(a[1..], b);
      assert |a| * |b| == |b| + |a[1..]| * |b|;
    }
  }

  /** The expansions of all branches, one after the other. */
  function WordsOf(bs: Branches): seq<string> {
    Expand(Print(bs.branch)) + if bs.Last? then [] else WordsOf(bs.others)
  }

  lemma {:induction false} BranchWords(bs: Branches)
    requires ProperBranches(bs) && NoticedBranches(bs)
    ensures DenoteBranches(bs) == WordsOf(bs)
    decreases bs
  {
    hide Expand, Print, Denote, Proper, Noticed;
    AsWord(bs.branch);
    ExpandPrint(bs.branch);
    if bs.More? {
      BranchWords(bs.others);
    }
  }

  function WordAt(words: seq<string>, k: int): Option<string> {
    if 0 <= k < |words| then Some(words[k]) else None
  }

  /** An alternation with what follows it: every word of the branches, in the order of the branches, with every word of
      the rest, the rest changing fastest. */
  lemma AlternationLaw(bs: Branches, rest: Tree, i: nat, j: nat)
    requires Proper(Alt(bs, rest), false) && Noticed(Alt(bs, rest), true)
    requires i < |WordsOf(bs)| && j < |Expand(Print(rest))|
    ensures var r := Expand("{" + PrintBranches(bs) + "}" + Print(rest));
            var n := |Expand(Print(rest))|;
            && |r| == |WordsOf(bs)| * n
            && WordAt(r, i * n + j) == Some(WordsOf(bs)[i] + Expand(Print(rest))[j])
  {
    hide *;
    AlternationProduct(bs, rest);
    ProductWord(WordsOf(bs), Expand(Print(rest)), i, j);
  }

  lemma ProductWord(a: seq<string>, b: seq<string>, i: nat, j: nat)
    requires i < |a| && j < |b|
    ensures |Product(a, b)| == |a| * |b| && WordAt(Product(a, b), i * |b| + j) == Some(a[i] + b[j])
  {
    hide Product;
    ProductAt(a, b, i, j);
  }

  lemma AlternationProduct(bs: Branches, rest: Tree)
    requires Proper(Alt(bs, rest), false) && Noticed(Alt(bs, rest), true)
    ensures Expand("{" + PrintBranches(bs) + "}" + Print(rest)) == Product(WordsOf(bs), Expand(Print(rest)))
  {
    hide Expand, Product, WordsOf, Proper, Noticed, PrintBranches, DenoteBranches, Print, Denote;
    AlternationParts(bs, rest);
    ExpandPrint(Alt(bs, rest));
    ExpandPrint(rest);
    BranchWords(bs);
  }

  lemma AlternationParts(bs: Branches, rest: Tree)
    requires Proper(Alt(bs, rest), false) && Noticed(Alt(bs, rest), true)
    ensures Proper(rest, false) && Noticed(rest, true) && ProperBranches(bs) && NoticedBranches(bs)
    ensures Print(Alt(bs, rest)) == "{" + PrintBranches(bs) + "}" + Print(rest)
    ensures Denote(Alt(bs, rest)) == Product(DenoteBranches(bs), Denote(rest))
  {
    hide ProperBranches, NoticedBranches, PrintBranches, DenoteBranches, Product;
  }

  // ---------- what is left alone ----------

  /** Inside quotes of any of the three kinds commas, braces and dots are plain characters. */
  lemma QuotesLaw(q: char, body: string)
    requires q in {'"', '\'', '`'} && forall k :: 0 <= k < |body| ==> body[k] !in {q, '\\', '$', '\0'}
    ensures Expand("{x," + [q] + body + [q] + "}") == ["x", [q] + body + [q]]
  {
    hide Expand;
    var x, y := Text(Plain('x'), Done), Text(Quoted(q, body), Done);
    var t := Alt(More(x, Last(y)), Done);
    QuotedProper(q, body);
    QuotedTexts(q, body);
    ExpandPrint(t);
  }

  lemma QuotedProper(q: char, body: string)
    requires q in {'"', '\'', '`'} && forall k :: 0 <= k < |body| ==> body[k] !in {q, '\\', '$', '\0'}
    ensures var t := Alt(More(Text(Plain('x'), Done), Last(Text(Quoted(q, body), Done))), Done);
            Proper(t, false) && Noticed(t, true)
  {
    var x, y := Text(Plain('x'), Done), Text(Quoted(q, body), Done);
    assert Proper(Done, true) && Proper(Done, false);
    assert Proper(x, true);
    assert Proper(y, true);
    assert ProperBranches(Last(y));
    assert Noticed(Done, true) && Noticed(Done, false) && Noticed(x, true) && Noticed(y, true);
    assert NoticedBranches(Last(y));
    assert PrintBranches(More(x, Last(y))) == Print(x) + "," + PrintBranches(Last(y)) && Print(x)[0] == 'x';
  }

  lemma QuotedTexts(q: char, body: string)
    ensures var t := Alt(More(Text(Plain('x'), Done), Last(Text(Quoted(q, body), Done))), Done);
            && Print(t) == "{x," + [q] + body + [q] + "}"
            && Denote(t) == ["x", [q] + body + [q]]
  {
    var x, y := Text(Plain('x'), Done), Text(Quoted(q, body), Done);
    var quoted := [q] + body + [q];
    assert Print(Done) == "" && Denote(Done) == [""];
    assert Print(x) == "x" + "" == "x" && Print(y) == quoted + "" == quoted;
    ProductUnitRight(["x"]);
    ProductUnitRight([quoted]);
    assert Denote(x) == ["x"] && Denote(y) == [quoted];
    hide Product;
    var bs := More(x, Last(y));
    assert PrintBranches(bs) == "x" + "," + quoted;
    assert DenoteBranches(bs) == ["x"] + [quoted] == ["x", quoted];
    ProductUnitRight(["x", quoted]);
    assert "{" + ("x" + "," + quoted) + "}" + "" == "{x," + [q] + body + [q] + "}";
  }

  /** A brace with a blank after it at the start of a word opens nothing, */
  lemma BlankLaw(c: char)
    requires c in {' ', '\t', '\n'}
    ensures Expand("{" + [c] + "a,b}") == ["{" + [c] + "a,b}"]
  {
    var text := "{" + [c] + "a,b}";
    assert Gobble(text, StartAt(0, '{'), '{') == |text|;
  }

  /** and neither does one after a dollar sign. */
  lemma ParameterLaw()
    ensures Expand("${a,b}") == ["${a,b}"]
  {
    var text := "${a,b}";
    assert Gobble(text, StartAt(0, '{'), '{') == |text|;
  }

  // ---------- quoting ----------

  /** The characters that mean nothing to the shell inside a word. */
  predicate Ordinary(c: char) {
    || 'a' <= c <= 'z' || 'A' <= c <= 'Z' || '0' <= c <= '9'
    || c in {'#', '%', '+', '-', '.', '/', ':', '=', '@', '_', '~'}
    || (c < ' ' && c != '\t' && c != '\n') || c >= 127 as char
  }

  /** A name is written without any backslash if and only if all its characters are ordinary ones and it does not begin
      with `#`. */
  lemma QuotingLaw(name: string)
    ensures BraceCompletion.BackslashQuote(name, true) == name
            <==> (name != "" ==> name[0] != '#') && forall k :: 0 <= k < |name| ==> Ordinary(name[k])
  {
    QuotingFrom(name, true);
  }

  lemma {:induction false} QuotingFrom(s: string, first: bool)
    ensures |BraceCompletion.BackslashQuote(s, first)| >= |s|
    ensures BraceCompletion.BackslashQuote(s, first) == s
            <==> (first && s != "" ==> s[0] != '#') && forall k :: 0 <= k < |s| ==> Ordinary(s[k])
    ensures |BraceCompletion.BackslashQuote(s, first)| == |s| ==> BraceCompletion.BackslashQuote(s, first) == s
    decreases |s|
  {
    if s != "" {
      QuotingFrom(s[1..], false);
      OrdinaryExactly(s[0]);
      hide Ordinary;
      assert s == [s[0]] + s[1..];
      assert forall k :: 0 < k < |s| ==> s[k] == s[1..][k - 1];
    }
  }

  lemma OrdinaryExactly(c: char)
    ensures Ordinary(c) <==> c !in BraceCompletion.QUOTED_CHARS
  {
  }

  // ---------- the order of names ----------

  /** The order that names come in: the first difference decides, and a prefix is before what it begins. */
  lemma {:induction false} OrderLaw(s: string, t: string, k: nat)
    requires k <= |s| && k <= |t| && s[..k] == t[..k] && (k < |s| && k < |t| ==> s[k] != t[k])
    ensures BraceCompletion.StrLe(s, t) <==> k == |s| || (k < |t| && s[k] < t[k])
    decreases k
  {
    if k > 0 {
      assert s[0] == s[..k][0] == t[..k][0] == t[0];
      assert s[1..][..k - 1] == s[..k][1..] == t[..k][1..] == t[1..][..k - 1];
      OrderLaw(s[1..], t[1..], k - 1);
    }
  }

  /** The comparison is that order, but a name that begins with a byte above 127 is before all that do not. */
  lemma FirstByteLaw(s: string, t: string)
    requires s != "" && t != "" && 0 < s[0] as int < 256 && 0 < t[0] as int < 256
    ensures (s[0] as int < 128) == (t[0] as int < 128) ==>
              (BraceCompletion.NameLe(s, t) <==> BraceCompletion.StrLe(s, t))
    ensures s[0] as int >= 128 && (t[0] as int) < 128 ==>
              BraceCompletion.NameLe(s, t) && !BraceCompletion.NameLe(t, s)
  {
  }
}
