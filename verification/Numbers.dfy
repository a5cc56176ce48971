/** Machine integers of the shell (`intmax_t`, 64 bits) and their decimal text. */
module Numbers {

  const INTMAX_MAX: int := 0x7FFF_FFFF_FFFF_FFFF
  const INTMAX_MIN: int := -0x8000_0000_0000_0000
  const TWO_TO_THE_64: int := 0x1_0000_0000_0000_0000
  const INT_MAX: int := 0x7FFF_FFFF
  const TWO_TO_THE_32: int := 0x1_0000_0000

  type intmax = x: int | INTMAX_MIN <= x <= INTMAX_MAX

  /** Two's complement reduction to 64 bits. */
  function Wrap(x: int): (r: intmax)
    ensures INTMAX_MIN <= x <= INTMAX_MAX ==> r == x
    ensures (r - x) % TWO_TO_THE_64 == 0
  {
    (x - INTMAX_MIN) % TWO_TO_THE_64 + INTMAX_MIN
  }

  /** Assignment of an `intmax_t` to an `int`. */
  function TruncateToInt(x: int): (r: int)
    ensures -INT_MAX - 1 <= r <= INT_MAX
    ensures -INT_MAX - 1 <= x <= INT_MAX ==> r == x
  {
    (x + INT_MAX + 1) % TWO_TO_THE_32 - INT_MAX - 1
  }

  function Abs(x: int): nat {
    if x < 0 then -x else x
  }

  /** C division, which truncates toward zero. */
  function DivC(a: int, b: int): int
    requires b != 0
  {
    var q := Abs(a) / Abs(b);
    if (a < 0) == (b < 0) then q else -q
  }

  /** C remainder, which takes the sign of the dividend. */
  function ModC(a: int, b: int): int
    requires b != 0
  {
    var r := Abs(a) % Abs(b);
    if a < 0 then -r else r
  }

  predicate IsDigit(c: char) {
    '0' <= c <= '9'
  }

  predicate AllDigits(s: string) {
    forall i :: 0 <= i < |s| ==> IsDigit(s[i])
  }

  function DigitChar(d: nat): char
    requires d < 10
  {
    '0' + d as char
  }

  function DigitValue(c: char): nat
    requires IsDigit(c)
  {
    (c - '0') as nat
  }

  /** Decimal text of a natural number, without leading zeros. */
  function Digits(n: nat): (s: string)
    ensures AllDigits(s) && |s| > 0
    ensures n > 0 ==> s[0] != '0'
    ensures n == 0 ==> s == "0"
  {
    if n < 10 then [DigitChar(n)] else Digits(n / 10) + [DigitChar(n % 10)]
  }

  /** The value of a string of decimal digits. */
  function DigitsValue(s: string): nat
    requires AllDigits(s)
  {
    if s == "" then 0 else 10 * DigitsValue(s[..|s| - 1]) + DigitValue(s[|s| - 1])
  }

  lemma {:induction false} DigitsRoundTrip(n: nat)
    ensures DigitsValue(Digits(n)) == n
  {
    if n >= 10 {
      DigitsRoundTrip(n / 10);
      assert Digits(n)[..|Digits(n)| - 1] == Digits(n / 10);
    }
  }

  /** Decimal text of an integer, as `itos` makes it. */
  function Itos(x: int): (s: string)
    ensures |s| > 0
  {
    if x < 0 then "-" + Digits(-x) else Digits(x)
  }

  function DigitsEnd(s: string, i: nat): (e: nat)
    requires i <= |s|
    ensures i <= e <= |s|
    ensures AllDigits(s[i..e])
    ensures e < |s| ==> !IsDigit(s[e])
    decreases |s| - i
  {
    if i < |s| && IsDigit(s[i]) then DigitsEnd(s, i + 1) else i
  }

  /** What `isspace` accepts in the C locale. */
  predicate IsSpace(c: char) {
    c == ' ' || '\t' <= c <= '\r'
  }

  function SkipSpaces(s: string, i: nat): (e: nat)
    requires i <= |s|
    ensures i <= e <= |s|
    decreases |s| - i
  {
    if i < |s| && IsSpace(s[i]) then SkipSpaces(s, i + 1) else i
  }

  /** The outcome of `strtoimax (s, &end, 10)`; `end` is 0 when no number was found. */
  datatype Parsed = Parsed(value: intmax, end: nat, erange: bool)

  function StrToImax(s: string): (p: Parsed)
    ensures p.end <= |s|
  {
    var i := SkipSpaces(s, 0);
    var negative := i < |s| && s[i] == '-';
    var j := if i < |s| && (s[i] == '-' || s[i] == '+') then i + 1 else i;
    var e := DigitsEnd(s, j);
    if e == j then Parsed(0, 0, false)
    else
      var m: int := DigitsValue(s[j..e]);
      var v := if negative then -m else m;
      if v > INTMAX_MAX then Parsed(INTMAX_MAX, e, true)
      else if v < INTMAX_MIN then Parsed(INTMAX_MIN, e, true)
      else Parsed(v, e, false)
  }

  lemma DigitsEndUnique(s: string, i: nat, e: nat)
    requires i <= e <= |s|
    requires AllDigits(s[i..e])
    requires e == |s| || !IsDigit(s[e])
    ensures DigitsEnd(s, i) == e
    decreases e - i
  {
    if i < e {
      assert IsDigit(s[i..e][0]);
      assert s[i + 1..e] == s[i..e][1..];
      DigitsEndUnique(s, i + 1, e);
    }
  }

  /** Reading back what `itos` printed, whatever follows it short of another digit. */
  lemma {:induction false} ItosRoundTrip(x: intmax, rest: string)
    requires rest == "" || !IsDigit(rest[0])
    ensures StrToImax(Itos(x) + rest) == Parsed(x, |Itos(x)|, false)
  {
    var s := Itos(x) + rest;
    var d := Digits(Abs(x));
    var j := if x < 0 then 1 else 0;
    assert SkipSpaces(s, 0) == 0;
    assert s[j..j + |d|] == d;
    DigitsEndUnique(s, j, j + |d|);
    DigitsRoundTrip(Abs(x));
  }

  // ---------- arithmetic ----------

  lemma ProductBound(a: nat, b: nat)
    requires b > 0
    ensures a * b >= a
  {
  }

  lemma ModUnique(x: int, q: int, r: int, m: nat)
    requires m > 0 && x == q * m + r && 0 <= r < m
    ensures x / m == q && x % m == r
  {
    var d := x / m - q;
    assert d * m == r - x % m by {
      assert d * m == (x / m) * m - q * m;
    }
    if d > 0 {
      ProductBound(m, d);
    }
  }

  lemma WrapStep(a: int, base: int, d: int)
    ensures Wrap(Wrap(a) * base + d) == Wrap(a * base + d)
  {
    var k := (Wrap(a) - a) / TWO_TO_THE_64;
    assert Wrap(a) == a + k * TWO_TO_THE_64;
    assert Wrap(a) * base + d == (a * base + d) + (k * base) * TWO_TO_THE_64 by {
      assert (k * TWO_TO_THE_64) * base == (k * base) * TWO_TO_THE_64;
    }
    WrapMultiple(a * base + d, k * base);
  }

  lemma WrapMultiple(x: int, k: int)
    ensures Wrap(x + k * TWO_TO_THE_64) == Wrap(x)
  {
    var y := x - INTMAX_MIN;
    ModMultiple(y, k, TWO_TO_THE_64);
  }

  lemma ModMultiple(y: int, k: int, m: nat)
    requires m > 0
    ensures (y + k * m) % m == y % m
  {
    var q, r := y / m, y % m;
    assert y + k * m == (q + k) * m + r by {
      assert (q + k) * m == q * m + k * m;
    }
    ModUnique(y + k * m, q + k, r, m);
  }
}
