/** Strings as the routines read them. */
module Strings {

  predicate IsAlpha(c: char) {
    'a' <= c <= 'z' || 'A' <= c <= 'Z'
  }

  function At(s: string, i: nat): char {
    if i < |s| then s[i] else '\0'
  }

  /** s stands at position i of text. */
  predicate Holds(text: string, i: nat, s: string) {
    i + |s| <= |text| && text[i..i + |s|] == s
  }

  lemma HoldsParts(text: string, i: nat, a: string, b: string)
    requires Holds(text, i, a + b)
    ensures Holds(text, i, a) && Holds(text, i + |a|, b)
  {
    assert text[i..i + |a|] == text[i..i + |a + b|][..|a|];
    assert text[i + |a|..i + |a + b|] == text[i..i + |a + b|][|a|..];
  }

  lemma HoldsAt(text: string, i: nat, s: string, k: nat)
    requires Holds(text, i, s) && k < |s|
    ensures text[i + k] == s[k]
  {
    assert text[i..i + |s|][k] == text[i + k];
  }

  lemma HoldsBound(text: string, i: nat, s: string)
    requires Holds(text, i, s)
    ensures i + |s| <= |text|
  {
  }

  lemma HoldsWhole(text: string)
    ensures Holds(text, 0, text)
  {
  }

  lemma HoldsSlice(text: string, i: nat, s: string)
    requires Holds(text, i, s)
    ensures i + |s| <= |text| && text[i..i + |s|] == s
  {
  }

  lemma Associative(a: string, b: string, c: string)
    ensures a + (b + c) == (a + b) + c
  {
  }
}
