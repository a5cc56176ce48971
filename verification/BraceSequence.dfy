/** Sequence expressions `{x..y}` and `{x..y..incr}` (mkseq and expand_seqterm of braces.c). */
module BraceSequence {
  import opened Numbers
  import opened Strings
  import opened Wrappers

  datatype SeqType = IntTerm | ZeroPaddedTerm | CharTerm

  /** What a call of mkseq comes to. `Rejected` and `NoMemory` are its null returns: the first from
      its own checks, the second from an allocation whose computed size is negative. `Overrun` is a
      store past the last slot it allocated. */
  datatype Outcome = Rejected | NoMemory | Overrun | Terms(terms: seq<string>)

  function AddOverflow(a: int, b: int, min: int, max: int): bool {
    (a > 0 && b > max - a) || (a < 0 && b < min - a)
  }

  function SubOverflow(a: int, b: int, min: int, max: int): bool {
    (b > 0 && a < min + b) || (b < 0 && a > max + b)
  }

  /** The macro sh_imaxabs; negating INTMAX_MIN wraps back to INTMAX_MIN. */
  function ImaxAbs(x: intmax): intmax {
    if x >= 0 then x else Wrap(-(x as int))
  }

  function Repeat(c: char, n: nat): string {
    seq(n, _ => c)
  }

  /** The conversion `%0*d`. */
  function ZeroPad(width: nat, x: int): string {
    var sign := if x < 0 then "-" else "";
    var digits := Digits(Abs(x));
    sign + Repeat('0', if |sign| + |digits| < width then width - |sign| - |digits| else 0) + digits
  }

  function CharOf(x: int): char {
    (x % 256) as char
  }

  function FormatTerm(t: SeqType, width: nat, x: int): string {
    match t
    case IntTerm => Itos(x)
    case ZeroPaddedTerm => ZeroPad(width, TruncateToInt(x))
    case CharTerm => [CharOf(x)]
  }

  // ---------- what a sequence means ----------

  /** The increment with the sign that leads from start to end; 0 stands for 1. */
  function Direction(start: int, end: int, incr: int): (step: int)
    ensures step != 0 && (start > end ==> step < 0) && (start < end ==> step > 0)
    ensures incr != 0 ==> Abs(step) == Abs(incr)
  {
    var k := if incr == 0 then 1 else Abs(incr);
    if start > end then -k else if start < end then k else if incr == 0 then 1 else incr
  }

  /** The number of terms less one. */
  function Span(start: int, end: int, incr: int): nat {
    Abs(end - start) / Abs(Direction(start, end, incr))
  }

  function Term(start: int, end: int, incr: int, k: nat): int {
    start + k * Direction(start, end, incr)
  }

  /** Term k lies between start and end. */
  predicate Reaches(start: int, end: int, incr: int, k: nat) {
    && (start <= end ==> start <= Term(start, end, incr, k) <= end)
    && (start >= end ==> start >= Term(start, end, incr, k) >= end)
  }

  /** Term k is on the way from start to end exactly when k is at most Span. */
  lemma TermInRange(start: int, end: int, incr: int, k: nat)
    ensures k <= Span(start, end, incr) <==> Reaches(start, end, incr, k)
  {
    var d, step := Abs(end - start), Abs(Direction(start, end, incr));
    QuotientBound(d, step, k);
    assert k * step >= 0 && (k * step == 0 ==> k == 0);
    assert k * Direction(start, end, incr) == if Direction(start, end, incr) < 0 then -(k * step) else k * step;
  }

  lemma QuotientBound(d: nat, step: nat, k: nat)
    requires step > 0
    ensures k <= d / step <==> k * step <= d
  {
    var q := d / step;
    assert d == q * step + d % step;
    if k <= q {
      assert k * step <= q * step;
    } else {
      assert k * step >= (q + 1) * step == q * step + step;
    }
  }

  /** The formatted terms, in order. */
  function AllTerms(start: int, end: int, incr: int, t: SeqType, width: nat): (r: seq<string>) {
    seq(Span(start, end, incr) + 1, (k: nat) => FormatTerm(t, width, Term(start, end, incr, k)))
  }

  /** The inputs that get past the checks of mkseq. */
  predicate Accepted(start: intmax, end: intmax, incr: intmax) {
    && !(start < end && incr == INTMAX_MIN)
    && (start > 0 ==> end - start >= INTMAX_MIN + 3)
    && (start < 0 ==> end - start <= INTMAX_MAX - 2)
    && (Span(start, end, incr) <= INT_MAX - 3 || UnguardedDifference(start, end, incr))
  }

  /** The inputs whose difference is INTMAX_MIN and is not caught: the range check says nothing when
      start is 0, and the absolute value and the element count that follow come out negative. */
  predicate UnguardedDifference(start: intmax, end: intmax, incr: intmax) {
    start == 0 && end == INTMAX_MIN && incr != INTMAX_MIN
  }

  /** The number of slots that such inputs ask for; it is at most 2 to the 31st, and it may be negative. */
  function SlotCount(start: intmax, end: intmax, incr: intmax): int {
    TruncateToInt(1 - Span(start, end, incr)) + 1
  }

  /** `{0..-9223372036854775808}` asks for two slots for its terms; with an increment of 2 to the 61st it asks
      for -2. */
  lemma SlotsOfLeast()
    ensures UnguardedDifference(0, INTMAX_MIN, 1) && SlotCount(0, INTMAX_MIN, 1) == 2
            && Span(0, INTMAX_MIN, 1) == -INTMAX_MIN
    ensures var incr := 0x2000_0000_0000_0000;
            UnguardedDifference(0, INTMAX_MIN, incr) && SlotCount(0, INTMAX_MIN, incr) == -2
  {
    var incr := 0x2000_0000_0000_0000;
    assert Span(0, INTMAX_MIN, 1) == 0x8000_0000_0000_0000 && Span(0, INTMAX_MIN, incr) == 4;
  }

  // ---------- the generator ----------

  /** The loop of mkseq, which always stores one term, and then a null, into nelem + 1 slots. */
  method FillTerms(start: intmax, end: intmax, incr: intmax, t: SeqType, width: nat, nelem: int, ghost incr0: intmax)
    returns (r: Outcome)
    requires incr == Direction(start, end, incr0) && nelem + 1 >= 0
    ensures r.Terms? || r.Overrun?
    ensures r.Terms? <==> nelem >= Span(start, end, incr0) + 1
    ensures r.Terms? ==> r.terms == AllTerms(start, end, incr0, t, width)
  {
    ghost var span := Span(start, end, incr0);
    var result := new string[nelem + 1];
    var i, n: intmax := 0, start;
    while true
      invariant 0 <= i <= span && i <= result.Length
      invariant n == Term(start, end, incr0, i)
      invariant result[..i] == AllTerms(start, end, incr0, t, width)[..i]
      decreases result.Length - i
    {
      if i == result.Length {
        return Overrun;
      }
      result[i] := FormatTerm(t, width, n);
      i := i + 1;
      LastTerm(start, end, incr0, i - 1);
      if AddOverflow(n, incr, INTMAX_MIN, INTMAX_MAX) {
        break;
      }
      n := n + incr;
      if (incr < 0 && n < end) || (incr > 0 && n > end) {
        break;
      }
    }
    if i == result.Length {
      return Overrun;
    }
    return Terms(result[..i]);
  }

  /** mkseq. Every difference, product and sum it forms is an intmax, so none of them overflows; the
      one exception is the negation in ImaxAbs. */
  method MkSeq(start: intmax, end: intmax, incr0: intmax, t: SeqType, width: nat) returns (r: Outcome)
    ensures r.Rejected? <==> !Accepted(start, end, incr0)
    ensures r.Terms? <==> Accepted(start, end, incr0) && !UnguardedDifference(start, end, incr0)
    ensures r.NoMemory? <==> UnguardedDifference(start, end, incr0) && SlotCount(start, end, incr0) < 0
    ensures r.Overrun? <==> UnguardedDifference(start, end, incr0) && SlotCount(start, end, incr0) >= 0
    ensures r.Terms? ==> r.terms == AllTerms(start, end, incr0, t, width)
  {
    var incr: intmax := incr0;
    if incr == 0 {
      incr := 1;
    }
    if start > end && incr > 0 {
      incr := -(incr as int);
    } else if start < end && incr < 0 {
      if incr == INTMAX_MIN {
        return Rejected;
      }
      incr := -(incr as int);
    }
    assert incr == Direction(start, end, incr0);
    if SubOverflow(end, start, INTMAX_MIN + 3, INTMAX_MAX - 2) {
      return Rejected;
    }
    QuotientFacts(start, end, incr0);
    hide DivC, Span;
    var difference: intmax := end - start;
    var prevn: intmax := ImaxAbs(difference);
    var quotient: intmax := DivC(prevn, ImaxAbs(incr));
    if AddOverflow(quotient, 1, INTMAX_MIN, INTMAX_MAX) || quotient > INT_MAX - 3 {
      return Rejected;
    }
    var nelem := TruncateToInt(quotient + 1);
    if nelem + 1 < 0 {
      return NoMemory;
    }
    r := FillTerms(start, end, incr, t, width, nelem, incr0);
  }

  /** mkseq at those two inputs. */
  method LeastSequences() returns (r: Outcome, r2: Outcome)
    ensures r == Overrun && r2 == NoMemory
  {
    hide Span, SlotCount;
    SlotsOfLeast();
    r := MkSeq(0, INTMAX_MIN, 1, IntTerm, 0);
    r2 := MkSeq(0, INTMAX_MIN, 0x2000_0000_0000_0000, IntTerm, 0);
  }

  /** The loop's exit test holds after term k exactly when k is the last term. */
  lemma LastTerm(start: intmax, end: intmax, incr: intmax, k: nat)
    requires k <= Span(start, end, incr)
    ensures var n, step := Term(start, end, incr, k), Direction(start, end, incr);
            && Term(start, end, incr, k + 1) == n + step
            && (k == Span(start, end, incr) <==>
                AddOverflow(n, step, INTMAX_MIN, INTMAX_MAX) || (step < 0 && n + step < end)
                    || (step > 0 && n + step > end))
  {
    TermInRange(start, end, incr, k);
    TermInRange(start, end, incr, k + 1);
    var step := Direction(start, end, incr);
    assert (k + 1) * step == k * step + step;
  }

  lemma QuotientFacts(start: intmax, end: intmax, incr: intmax)
    requires !(start < end && incr == INTMAX_MIN)
    requires !SubOverflow(end, start, INTMAX_MIN + 3, INTMAX_MAX - 2)
    ensures var step := Direction(start, end, incr);
            && INTMAX_MIN <= end - start <= INTMAX_MAX && INTMAX_MIN <= step <= INTMAX_MAX && ImaxAbs(step) != 0
            && var quotient := DivC(ImaxAbs(end - start), ImaxAbs(step));
            && INTMAX_MIN <= quotient <= INTMAX_MAX
            && (!UnguardedDifference(start, end, incr) ==> quotient == Span(start, end, incr))
            && (UnguardedDifference(start, end, incr) ==> quotient + Span(start, end, incr) == 0 && quotient < 0)
  {
    var step := Direction(start, end, incr);
    QuotientRange(Abs(end - start), Abs(step));
    if UnguardedDifference(start, end, incr) {
      assert ImaxAbs(end - start) == INTMAX_MIN;
    } else if step == INTMAX_MIN {
      assert ImaxAbs(step) == INTMAX_MIN;
    }
  }

  lemma QuotientRange(a: nat, b: nat)
    requires b > 0
    ensures 0 <= a / b <= a && (b <= a ==> a / b >= 1) && (a < b ==> a / b == 0)
  {
    QuotientBound(a, b, 1);
    if a / b > a {
      ProductBound(a + 1, b);
      QuotientBound(a, b, a + 1);
    }
  }

  // ---------- reading a sequence expression ----------

  function SkipBlanks(s: string, i: nat): (e: nat)
    requires i <= |s|
    ensures i <= e <= |s|
    decreases |s| - i
  {
    if i < |s| && (s[i] == ' ' || s[i] == '\t') then SkipBlanks(s, i + 1) else i
  }

  /** legal_number of general.c. */
  function LegalNumber(s: string): Option<intmax> {
    var p := StrToImax(s);
    if p.erange || p.end == 0 || SkipBlanks(s, p.end) < |s| then None else Some(p.value)
  }

  /** Where ".." first occurs. */
  function FindDots(s: string, i: nat): (d: nat)
    requires i <= |s|
    ensures i <= d <= |s|
    ensures d < |s| ==> d + 2 <= |s| && s[d] == '.' && s[d + 1] == '.'
    decreases |s| - i
  {
    if i == |s| then i
    else if s[i] == '.' && At(s, i + 1) == '.' then i
    else FindDots(s, i + 1)
  }

  datatype Request = Request(start: intmax, end: intmax, incr: intmax, termType: SeqType, width: nat)

  datatype RightSide = RightSide(isChar: bool, value: intmax, end: nat)

  /** The right-hand bound and where it ends; None is ST_BAD. */
  function ReadRightSide(rhs: string): (r: Option<RightSide>)
    ensures r.Some? ==> r.value.end <= |rhs|
  {
    if IsDigit(At(rhs, 0)) || ((At(rhs, 0) == '+' || At(rhs, 0) == '-') && IsDigit(At(rhs, 1))) then
      var p := StrToImax(rhs);
      if p.erange || (p.end < |rhs| && rhs[p.end] != '.') then None else Some(RightSide(false, p.value, p.end))
    else if IsAlpha(At(rhs, 0)) && (|rhs| == 1 || rhs[1] == '.') then
      Some(RightSide(true, (rhs[0] as int) % 256, 1))
    else None
  }

  /** The increment that follows position `from`; None is a malformed one. */
  function ReadIncrement(rhs: string, from: nat): Option<intmax>
    requires from <= |rhs|
  {
    if At(rhs, from) == '.' && At(rhs, from + 1) == '.' && from + 2 < |rhs| then
      var p := StrToImax(rhs[from + 2..]);
      if p.erange || from + 2 + p.end < |rhs| then None else Some(p.value)
    else if from < |rhs| then None
    else Some(1)
  }

  /** The field width that leading zeros ask for; 0 when there are none. */
  function PaddedWidth(lhs: string, rhs: string): nat {
    var padded := (s: string) => (|s| > 1 && s[0] == '0') || (|s| > 2 && s[0] == '-' && s[1] == '0');
    if padded(lhs) || padded(rhs) then (if |lhs| < |rhs| then |rhs| else |lhs|) else 0
  }

  /** expand_seqterm up to its call of mkseq; None when the text is no sequence expression. */
  function ReadRequest(text: string): Option<Request> {
    var d := FindDots(text, 0);
    if d == |text| || d == 0 || d + 2 == |text| then None
    else
      var lhs, rhs := text[..d], text[d + 2..];
      var number := LegalNumber(lhs);
      match ReadRightSide(rhs)
      case None => None
      case Some(right) =>
        match ReadIncrement(rhs, right.end)
        case None => None
        case Some(incr) =>
          if number.Some? && !right.isChar then
            var width := PaddedWidth(lhs, rhs[..right.end]);
            Some(Request(number.value, right.value, incr, if width > 0 then ZeroPaddedTerm else IntTerm, width))
          else if number.None? && right.isChar && |lhs| == 1 && IsAlpha(lhs[0]) then
            Some(Request((lhs[0] as int) % 256, right.value, incr, CharTerm, 1))
          else None
  }

  /** The terms of a sequence expression; None when mkseq is not reached or delivers nothing. */
  function SeqTerm(text: string): Option<seq<string>> {
    match ReadRequest(text)
    case None => None
    case Some(q) =>
      if Accepted(q.start, q.end, q.incr) && !UnguardedDifference(q.start, q.end, q.incr)
      then Some(AllTerms(q.start, q.end, q.incr, q.termType, q.width)) else None
  }

  method ExpandSeqTerm(text: string) returns (r: Option<seq<string>>)
    ensures r == SeqTerm(text)
  {
    var request := ReadRequest(text);
    if request.None? {
      return None;
    }
    var q := request.value;
    var outcome := MkSeq(q.start, q.end, q.incr, q.termType, q.width);
    return if outcome.Terms? then Some(outcome.terms) else None;
  }

  // ---------- printing a sequence expression ----------

  datatype Bounds = Ints(lo: intmax, hi: intmax) | Letters(first: char, last: char)

  function PrintIncrement(incr: Option<intmax>): string {
    if incr.Some? then ".." + Itos(incr.value) else ""
  }

  function PrintLeft(b: Bounds): string {
    if b.Ints? then Itos(b.lo) else [b.first]
  }

  function PrintRight(b: Bounds): string {
    if b.Ints? then Itos(b.hi) else [b.last]
  }

  function PrintSequence(b: Bounds, incr: Option<intmax>): string {
    PrintLeft(b) + ".." + (PrintRight(b) + PrintIncrement(incr))
  }

  predicate ProperBounds(b: Bounds) {
    b.Letters? ==> IsAlpha(b.first) && IsAlpha(b.last)
  }

  function RequestFor(b: Bounds, incr: Option<intmax>): Request
    requires ProperBounds(b)
  {
    var k := if incr.Some? then incr.value else 1;
    match b
    case Ints(lo, hi) => Request(lo, hi, k, IntTerm, 0)
    case Letters(first, last) => Request(first as int, last as int, k, CharTerm, 1)
  }

  predicate NumberText(s: string) {
    |s| > 0 && (s[0] == '-' || IsDigit(s[0])) && forall i :: 1 <= i < |s| ==> IsDigit(s[i])
  }

  lemma ItosText(x: intmax)
    ensures NumberText(Itos(x))
    ensures PaddedWidth(Itos(x), Itos(x)) == 0
    ensures At(Itos(x), 0) == '-' ==> IsDigit(At(Itos(x), 1))
  {
  }

  lemma FindDotsAfter(s: string, i: nat, d: nat)
    requires i <= d && d + 2 <= |s| && s[d] == '.' && s[d + 1] == '.'
    requires forall k :: i <= k < d ==> s[k] != '.'
    ensures FindDots(s, i) == d
    decreases d - i
  {
  }

  lemma ReadIncrementPrinted(rhs: string, from: nat, incr: Option<intmax>)
    requires from <= |rhs| && rhs[from..] == PrintIncrement(incr)
    ensures ReadIncrement(rhs, from) == Some(if incr.Some? then incr.value else 1)
  {
    if incr.Some? {
      ItosRoundTrip(incr.value, "");
      assert Itos(incr.value) + "" == Itos(incr.value);
      assert rhs[from + 2..] == rhs[from..][2..] == Itos(incr.value);
      assert rhs[from] == rhs[from..][0] && rhs[from + 1] == rhs[from..][1];
    }
  }

  lemma ReadRightPrinted(b: Bounds, incr: Option<intmax>)
    requires ProperBounds(b)
    ensures var value := if b.Ints? then b.hi else b.last as int;
            ReadRightSide(PrintRight(b) + PrintIncrement(incr)) == Some(RightSide(b.Letters?, value, |PrintRight(b)|))
  {
    var rhs := PrintRight(b) + PrintIncrement(incr);
    if b.Ints? {
      hide ReadRequest;
      ItosText(b.hi);
      ItosRoundTrip(b.hi, PrintIncrement(incr));
      assert At(rhs, 0) == At(PrintRight(b), 0);
      assert |PrintRight(b)| > 1 ==> At(rhs, 1) == At(PrintRight(b), 1);
    }
  }

  lemma LegalNumberPrinted(b: Bounds)
    requires ProperBounds(b)
    ensures LegalNumber(PrintLeft(b)) == if b.Ints? then Some(b.lo) else None
  {
    if b.Ints? {
      ItosRoundTrip(b.lo, "");
      assert Itos(b.lo) + "" == Itos(b.lo);
    }
  }

  lemma SplitAtDots(left: string, right: string)
    requires '.' !in left
    ensures var text := left + ".." + right;
            FindDots(text, 0) == |left| && text[..|left|] == left && text[|left| + 2..] == right
  {
    FindDotsAfter(left + ".." + right, 0, |left|);
  }

  lemma SplitPrinted(b: Bounds, incr: Option<intmax>)
    requires ProperBounds(b)
    ensures var text, d := PrintSequence(b, incr), |PrintLeft(b)|;
            && FindDots(text, 0) == d && 0 < d && d + 2 < |text|
            && text[..d] == PrintLeft(b) && text[d + 2..] == PrintRight(b) + PrintIncrement(incr)
            && (b.Letters? ==> d == 1)
  {
    if b.Ints? {
      ItosText(b.lo);
    }
    hide FindDots, Itos, PrintIncrement;
    SplitAtDots(PrintLeft(b), PrintRight(b) + PrintIncrement(incr));
  }

  lemma NoPadding(lo: intmax, hi: intmax)
    ensures PaddedWidth(Itos(lo), Itos(hi)) == 0
  {
    ItosText(lo);
    ItosText(hi);
  }

  /** A printed sequence expression is read back as the request it prints. */
  lemma ReadPrintedSequence(b: Bounds, incr: Option<intmax>)
    requires ProperBounds(b)
    ensures ReadRequest(PrintSequence(b, incr)) == Some(RequestFor(b, incr))
  {
    hide ReadRightSide, ReadIncrement, LegalNumber, StrToImax, Itos, FindDots, PaddedWidth, PrintSequence,
        PrintIncrement;
    SplitPrinted(b, incr);
    var rhs := PrintRight(b) + PrintIncrement(incr);
    assert rhs[|PrintRight(b)|..] == PrintIncrement(incr) && rhs[..|PrintRight(b)|] == PrintRight(b);
    ReadIncrementPrinted(rhs, |PrintRight(b)|, incr);
    ReadRightPrinted(b, incr);
    LegalNumberPrinted(b);
    if b.Ints? {
      NoPadding(b.lo, b.hi);
    }
  }
}
