/** Compression of a sorted list of names into one brace word (really_munge_braces of bracecomp.c),
    with the quoting of sh_backslash_quote (lib/sh/shquote.c). The main result is MungeRoundTrip:
    brace expansion undoes the compression. */
module BraceCompletion {
  import opened BraceSequence
  import opened Braces
  import opened BraceTree
  import opened Strings

  // ---------- backslash quoting ----------

  /** The characters that the table of shquote.c marks. */
  const QUOTED_CHARS: set<char> :=
    {'\t', '\n', ' ', '!', '"', '$', '&', '\'', '(', ')', '*', ',', ';', '<', '>', '?', '[', '\\', ']', '^', '`', '{',
        '|', '}'}

  predicate NeedsBackslash(c: char, first: bool) {
    c in QUOTED_CHARS || (c == '#' && first)
  }

  /** sh_backslash_quote of s; `first` tells whether s begins the string. */
  function BackslashQuote(s: string, first: bool): string {
    if s == "" then ""
    else (if NeedsBackslash(s[0], first) then ['\\', s[0]] else [s[0]]) + BackslashQuote(s[1..], false)
  }

  lemma {:induction false} BackslashQuoteSnoc(s: string, first: bool, c: char)
    ensures BackslashQuote(s + [c], first)
         == BackslashQuote(s, first) + if NeedsBackslash(c, first && s == "") then ['\\', c] else [c]
  {
    if s == "" {
      assert (s + [c])[1..] == "";
    } else {
      assert (s + [c])[1..] == s[1..] + [c];
      BackslashQuoteSnoc(s[1..], false, c);
    }
  }

  method ShBackslashQuote(s: string) returns (result: string)
    ensures result == BackslashQuote(s, true)
  {
    result := "";
    for i := 0 to |s|
      invariant result == BackslashQuote(s[..i], true)
    {
      BackslashQuoteSnoc(s[..i], true, s[i]);
      assert s[..i + 1] == s[..i] + [s[i]];
      if s[i] in QUOTED_CHARS || (s[i] == '#' && i == 0) {
        result := result + ['\\'];
      }
      result := result + [s[i]];
    }
    assert s[..|s|] == s;
  }

  /** q is name with a backslash before every character of the table, and perhaps before a '#'. */
  predicate Quotes(q: string, name: string)
    decreases |name|
  {
    if name == "" then q == ""
    else
      var c := name[0];
      || (q != "" && q[0] == c && c !in QUOTED_CHARS && Quotes(q[1..], name[1..]))
      || (|q| > 1 && q[0] == '\\' && q[1] == c && (c in QUOTED_CHARS || c == '#') && Quotes(q[2..], name[1..]))
  }

  /** What is left of a quoted text when its backslashes are removed. */
  function Unquote(q: string): string
    decreases |q|
  {
    if q == "" then ""
    else if q[0] == '\\' && |q| > 1 then [q[1]] + Unquote(q[2..])
    else [q[0]] + Unquote(q[1..])
  }

  lemma {:induction false} UnquoteQuotes(q: string, name: string)
    requires Quotes(q, name)
    ensures Unquote(q) == name
    decreases |name|
  {
    if name != "" {
      if q[0] == name[0] && name[0] !in QUOTED_CHARS && Quotes(q[1..], name[1..]) {
        UnquoteQuotes(q[1..], name[1..]);
      } else {
        UnquoteQuotes(q[2..], name[1..]);
      }
    }
  }

  predicate NothingToQuote(name: string) {
    forall i :: 0 <= i < |name| ==> name[i] !in QUOTED_CHARS && name[i] != '#'
  }

  /** Names with nothing to quote are their own quoting. */
  lemma {:induction false} QuotesPlain(q: string, name: string)
    requires Quotes(q, name) && NothingToQuote(name)
    ensures q == name
    decreases |name|
  {
    if name != "" {
      assert name[0] !in QUOTED_CHARS && name[0] != '#';
      QuotesPlain(q[1..], name[1..]);
    }
  }

  lemma {:induction false} QuotesJoin(s: string, first: bool, q: string, name: string)
    requires Quotes(q, name)
    ensures Quotes(BackslashQuote(s, first) + q, s + name)
  {
    if s == "" {
      assert s + name == name;
      assert BackslashQuote(s, first) + q == q;
    } else {
      QuotesJoin(s[1..], false, q, name);
      var head := if NeedsBackslash(s[0], first) then ['\\', s[0]] else [s[0]];
      assert (s + name)[1..] == s[1..] + name;
      var whole := BackslashQuote(s, first) + q;
      assert whole == head + (BackslashQuote(s[1..], false) + q);
      assert whole[|head|..] == BackslashQuote(s[1..], false) + q;
    }
  }

  // ---------- common prefixes and the order of names ----------

  /** A C string of bytes. */
  predicate IsName(s: string) {
    forall i :: 0 <= i < |s| ==> 0 < s[i] as int < 256
  }

  function CommonPrefix(s: string, t: string): (n: nat)
    ensures n <= |s| && n <= |t|
  {
    if s != "" && t != "" && s[0] == t[0] then 1 + CommonPrefix(s[1..], t[1..]) else 0
  }

  method StringGcd(s1: string, s2: string) returns (i: nat)
    ensures i == CommonPrefix(s1, s2)
  {
    i := 0;
    while i < |s1| && i < |s2| && s1[i] == s2[i]
      invariant i <= |s1| && i <= |s2|
      invariant CommonPrefix(s1, s2) == i + CommonPrefix(s1[i..], s2[i..])
    {
      i := i + 1;
    }
  }

  lemma {:induction false} CommonPrefixIs(s: string, t: string)
    ensures s[..CommonPrefix(s, t)] == t[..CommonPrefix(s, t)]
    ensures CommonPrefix(s, t) < |s| && CommonPrefix(s, t) < |t| ==> s[CommonPrefix(s, t)] != t[CommonPrefix(s, t)]
  {
    if s != "" && t != "" && s[0] == t[0] {
      CommonPrefixIs(s[1..], t[1..]);
      var n := CommonPrefix(s[1..], t[1..]);
      assert s[..n + 1] == [s[0]] + s[1..][..n] && t[..n + 1] == [t[0]] + t[1..][..n];
    }
  }

  /** A `char` taken as signed, as in the first comparison of _strcompare; 0 for an empty string. */
  function FirstByte(s: string): int {
    if s == "" then 0 else if s[0] as int < 128 then s[0] as int else s[0] as int - 256
  }

  /** strcmp (s, t) <= 0 */
  predicate StrLe(s: string, t: string) {
    s == "" || (t != "" && (s[0] < t[0] || (s[0] == t[0] && StrLe(s[1..], t[1..]))))
  }

  /** _strcompare (s, t) <= 0 */
  predicate NameLe(s: string, t: string) {
    FirstByte(s) < FirstByte(t) || (FirstByte(s) == FirstByte(t) && StrLe(s, t))
  }

  predicate Sorted(names: seq<string>) {
    forall i, j :: 0 <= i <= j < |names| ==> NameLe(names[i], names[j])
  }

  lemma {:induction false} StrLePrefix(x: string, y: string, z: string)
    requires StrLe(x, y) && StrLe(y, z)
    ensures CommonPrefix(x, z) <= CommonPrefix(x, y)
  {
    if x != "" && z != "" && x[0] == z[0] {
      StrLePrefix(x[1..], y[1..], z[1..]);
    }
  }

  /** In a sorted list, a later name shares no longer prefix with the first than an earlier one does. */
  lemma NameLePrefix(x: string, y: string, z: string)
    requires IsName(x) && IsName(y) && IsName(z) && NameLe(x, y) && NameLe(y, z)
    ensures CommonPrefix(x, z) <= CommonPrefix(x, y)
  {
    if CommonPrefix(x, z) > 0 {
      assert FirstByte(x) == FirstByte(y) == FirstByte(z);
      StrLePrefix(x, y, z);
    }
  }

  // ---------- the tree that the compression prints ----------

  /** Names start up to end agree on their first z characters, and the names between start and end
      share ever shorter prefixes with any one before them. */
  ghost predicate Grouped(a: seq<string>, start: nat, end: nat, z: nat) {
    && start < end <= |a| && z <= |a[start]|
    && (forall i :: start <= i < end ==> z <= |a[i]| && a[i][..z] == a[start][..z])
    && (forall i, j, k :: start <= i <= j <= k < end ==> CommonPrefix(a[i], a[k]) <= CommonPrefix(a[i], a[j]))
  }

  lemma GroupedBounds(a: seq<string>, start: nat, end: nat, z: nat)
    requires Grouped(a, start, end, z)
    ensures start < end <= |a| && z <= |a[start]|
  {
  }

  lemma SortedIsGrouped(a: seq<string>, start: nat)
    requires start < |a| && Sorted(a[start..]) && forall i :: 0 <= i < |a| ==> IsName(a[i])
    ensures Grouped(a, start, |a|, 0)
  {
    forall i, j, k | start <= i <= j <= k < |a| ensures CommonPrefix(a[i], a[k]) <= CommonPrefix(a[i], a[j]) {
      assert a[i] == a[start..][i - start] && a[j] == a[start..][j - start] && a[k] == a[start..][k - start];
      NameLePrefix(a[i], a[j], a[k]);
    }
  }

  /** The end of the group that begins at start: the first later name that shares no more than z
      characters with it. */
  function GroupEnd(a: seq<string>, start: nat, end: nat, z: nat, from: nat): (g: nat)
    requires start < from <= end <= |a|
    ensures from <= g <= end
    ensures forall k :: from <= k < g ==> CommonPrefix(a[start], a[k]) > z
    ensures g < end ==> CommonPrefix(a[start], a[g]) <= z
    decreases end - from
  {
    if from < end && CommonPrefix(a[start], a[from]) > z then GroupEnd(a, start, end, z, from + 1) else from
  }

  /** The prefix length that a group of two or more names is split at. */
  function GroupPrefix(a: seq<string>, start: nat, g: nat): nat
    requires start < g <= |a|
  {
    CommonPrefix(a[start], a[g - 1])
  }

  lemma CommonPrefixUpTo(s: string, t: string, z: nat)
    ensures z <= CommonPrefix(s, t) <==> z <= |s| && z <= |t| && s[..z] == t[..z]
  {
    CommonPrefixIs(s, t);
    var n := CommonPrefix(s, t);
    if z <= n {
      assert s[..z] == s[..n][..z] && t[..z] == t[..n][..z];
    } else if z <= |s| && z <= |t| {
      assert s[..z][n] == s[n] && t[..z][n] == t[n];
    }
  }

  /** A group is grouped by its longer prefix, and what follows it by the old one. */
  lemma GroupSplits(a: seq<string>, start: nat, end: nat, z: nat)
    requires Grouped(a, start, end, z)
    ensures var g := GroupEnd(a, start, end, z, start + 1);
            && (g < end ==> Grouped(a, g, end, z))
            && (g > start + 1 ==>
                    z < GroupPrefix(a, start, g) <= |a[start]|
                    && Grouped(a, start, g, GroupPrefix(a, start, g)))
  {
    var g := GroupEnd(a, start, end, z, start + 1);
    if g > start + 1 {
      var gcd := GroupPrefix(a, start, g);
      forall i | start <= i < g ensures gcd <= |a[i]| && a[i][..gcd] == a[start][..gcd] {
        assert gcd <= CommonPrefix(a[start], a[i]);
        CommonPrefixUpTo(a[start], a[i], gcd);
      }
    }
  }

  /** The text s, quoted, followed by rest. */
  function QuotedText(s: string, first: bool, rest: Tree): Tree {
    if s == "" then rest
    else Text(if NeedsBackslash(s[0], first) then Escaped(s[0]) else Plain(s[0]), QuotedText(s[1..], false, rest))
  }

  ghost function GroupTree(a: seq<string>, start: nat, end: nat, z: nat): Tree
    requires Grouped(a, start, end, z)
    decreases end - start, |a[start]| - z, 0
  {
    var g := GroupEnd(a, start, end, z, start + 1);
    if g == start + 1 then QuotedText(a[start][z..], true, Done)
    else
      GroupSplits(a, start, end, z);
      var gcd := GroupPrefix(a, start, g);
      QuotedText(a[start][z..gcd], true, Alt(GroupBranches(a, start, g, gcd), Done))
  }

  /** One branch for each group of names start up to end, without the first z characters. */
  ghost function GroupBranches(a: seq<string>, start: nat, end: nat, z: nat): Branches
    requires Grouped(a, start, end, z)
    decreases end - start, |a[start]| - z, 1
  {
    var g := GroupEnd(a, start, end, z, start + 1);
    GroupSplits(a, start, end, z);
    if g == end then Last(GroupTree(a, start, end, z))
    else More(GroupTree(a, start, end, z), GroupBranches(a, g, end, z))
  }

  /** The whole word: one group's own tree, or an alternation of several. */
  ghost function NamesTree(a: seq<string>, start: nat, end: nat): Tree
    requires Grouped(a, start, end, 0)
  {
    if GroupEnd(a, start, end, 0, start + 1) == end then GroupTree(a, start, end, 0)
    else Alt(GroupBranches(a, start, end, 0), Done)
  }

  // ---------- the routine ----------

  lemma {:induction false} PrintQuotedText(s: string, first: bool, rest: Tree)
    ensures Print(QuotedText(s, first, rest)) == BackslashQuote(s, first) + Print(rest)
  {
    if s != "" {
      PrintQuotedText(s[1..], false, rest);
      hide Print, BackslashQuote;
      PrintTextNode(s, first, rest);
    }
  }

  lemma PrintTextNode(s: string, first: bool, rest: Tree)
    requires s != "" && Print(QuotedText(s[1..], false, rest)) == BackslashQuote(s[1..], false) + Print(rest)
    ensures Print(QuotedText(s, first, rest)) == BackslashQuote(s, first) + Print(rest)
  {
    var x := if NeedsBackslash(s[0], first) then Escaped(s[0]) else Plain(s[0]);
    var tail := QuotedText(s[1..], false, rest);
    assert Print(Text(x, tail)) == Spell(x) + Print(tail);
    assert BackslashQuote(s, first) == Spell(x) + BackslashQuote(s[1..], false);
    hide *;
    Associative(Spell(x), BackslashQuote(s[1..], false), Print(rest));
  }

  /** What a group prints. */
  lemma PrintGroup(a: seq<string>, start: nat, end: nat, z: nat)
    requires Grouped(a, start, end, z)
    ensures var g := GroupEnd(a, start, end, z, start + 1);
            var gcd := GroupPrefix(a, start, g);
            if g == start + 1 then Print(GroupTree(a, start, end, z)) == BackslashQuote(a[start][z..], true)
            else && z < gcd <= |a[start]| && Grouped(a, start, g, gcd)
                 && Print(GroupTree(a, start, end, z)) ==
                    BackslashQuote(a[start][z..gcd], true)
                        + ("{" + PrintBranches(GroupBranches(a, start, g, gcd)) + "}")
  {
    hide Grouped, GroupEnd, GroupPrefix, BackslashQuote;
    GroupedBounds(a, start, end, z);
    var g := GroupEnd(a, start, end, z, start + 1);
    GroupSplits(a, start, end, z);
    if g == start + 1 {
      PrintQuotedText(a[start][z..], true, Done);
      assert BackslashQuote(a[start][z..], true) + "" == BackslashQuote(a[start][z..], true);
    } else {
      var gcd := GroupPrefix(a, start, g);
      var inner := Alt(GroupBranches(a, start, g, gcd), Done);
      PrintQuotedText(a[start][z..gcd], true, inner);
      assert Print(inner) == "{" + PrintBranches(inner.branches) + "}" + "";
    }
  }

  /** What a list of groups prints, with a comma after every group. */
  lemma PrintGroups(a: seq<string>, start: nat, end: nat, z: nat)
    requires Grouped(a, start, end, z)
    ensures var g := GroupEnd(a, start, end, z, start + 1);
            var head := Print(GroupTree(a, start, end, z)) + ",";
            && (g < end ==> Grouped(a, g, end, z))
            && PrintBranches(GroupBranches(a, start, end, z)) + "," ==
               if g == end then head else head + (PrintBranches(GroupBranches(a, g, end, z)) + ",")
  {
    hide Grouped, GroupEnd, GroupTree;
    GroupSplits(a, start, end, z);
  }

  /** The inner loop of really_munge_braces: the last name of the group that begins at start. */
  method FindGroup(names: seq<string>, start: nat, realEnd: nat, gcdZero: nat) returns (end: nat, gcd: nat)
    requires start < realEnd <= |names|
    ensures end + 1 == GroupEnd(names, start, realEnd, gcdZero, start + 1)
    ensures end > start ==> gcd == GroupPrefix(names, start, end + 1)
  {
    gcd := |names[start]|;
    end := start + 1;
    while end < realEnd
      invariant start < end <= realEnd
      invariant GroupEnd(names, start, realEnd, gcdZero, start + 1) == GroupEnd(names, start, realEnd, gcdZero, end)
      invariant end > start + 1 ==> gcd == CommonPrefix(names[start], names[end - 1])
    {
      var temp := StringGcd(names[start], names[end]);
      if temp <= gcdZero {
        break;
      }
      gcd := temp;
      end := end + 1;
    }
    end := end - 1;
  }

  /** The whole word is the list of groups, in braces when there are several. */
  lemma PrintNames(a: seq<string>, start: nat, end: nat)
    requires Grouped(a, start, end, 0)
    ensures var groups := PrintBranches(GroupBranches(a, start, end, 0));
            Print(NamesTree(a, start, end)) ==
            if GroupEnd(a, start, end, 0, start + 1) == end then groups else "{" + groups + "}"
  {
    hide Grouped, GroupEnd, GroupTree;
    GroupedBounds(a, start, end, 0);
    var groups := PrintBranches(GroupBranches(a, start, end, 0));
    assert Print(Alt(GroupBranches(a, start, end, 0), Done)) == "{" + groups + "}" + "";
  }

  /** The part of really_munge_braces that writes one group, names start to end. */
  method MungeGroup(names: seq<string>, start: nat, end: nat, gcd: nat, realEnd: nat,
        gcdZero: nat) returns (text: string)
    requires Grouped(names, start, realEnd, gcdZero)
    requires end + 1 == GroupEnd(names, start, realEnd, gcdZero, start + 1)
    requires end > start ==> gcd == GroupPrefix(names, start, end + 1)
    ensures text == Print(GroupTree(names, start, realEnd, gcdZero))
    decreases realEnd - start, |names[start]| - gcdZero, 0
  {
    hide GroupTree, GroupBranches, PrintBranches, Print, Grouped, GroupEnd, BackslashQuote, GroupPrefix;
    PrintGroup(names, start, realEnd, gcdZero);
    GroupedBounds(names, start, realEnd, gcdZero);
    if start == end {
      text := ShBackslashQuote(names[start][gcdZero..]);
    } else {
      text := ShBackslashQuote(names[start][gcdZero..gcd]);
      text := text + "{";
      var subterm := ReallyMungeBraces(names, start, end + 1, gcd);
      subterm := subterm[..|subterm| - 1] + "}";
      text := text + subterm;
    }
  }

  lemma Appended(brace: string, done: string, group: string, rest: string)
    ensures brace + done + group + "," == brace + (done + (group + ","))
    ensures done + ((group + ",") + rest) == (done + (group + ",")) + rest
    ensures rest == "" ==> done + (group + ",") + rest == done + (group + ",")
  {
  }

  /** really_munge_braces. A null entry ends the C vector; here it is the end of the sequence. */
  method ReallyMungeBraces(names: seq<string>, realStart: nat, realEnd: nat, gcdZero: nat) returns (result: string)
    requires |names| > 0 && realStart <= realEnd <= |names|
    requires realStart < realEnd ==> Grouped(names, realStart, realEnd, gcdZero)
    requires realStart == realEnd ==> gcdZero == 0
    ensures realStart == realEnd ==>
              result == BackslashQuote(names[if realStart < |names| then realStart else 0], true)
    ensures realStart < realEnd && gcdZero == 0 ==> result == Print(NamesTree(names, realStart, realEnd))
    ensures realStart < realEnd && gcdZero > 0 ==>
              result == PrintBranches(GroupBranches(names, realStart, realEnd, gcdZero)) + ","
    decreases realEnd - realStart, (if realStart < |names| then |names[realStart]| else 0) - gcdZero, 1
  {
    hide GroupTree, GroupBranches, PrintBranches, Print, Grouped, GroupEnd, NamesTree, GroupPrefix, BackslashQuote;
    if realStart == realEnd {
      if realStart < |names| {
        result := ShBackslashQuote(names[realStart][gcdZero..]);
      } else {
        result := ShBackslashQuote(names[0]);
      }
      return;
    }
    GroupedBounds(names, realStart, realEnd, gcdZero);
    ghost var goal := PrintBranches(GroupBranches(names, realStart, realEnd, gcdZero)) + ",";
    var flag := false;
    result := "";
    var start := realStart;
    ghost var done := "";
    while start < realEnd
      invariant realStart <= start <= realEnd
      invariant start < realEnd ==> Grouped(names, start, realEnd, gcdZero)
      invariant start < realEnd ==> done + (PrintBranches(GroupBranches(names, start, realEnd, gcdZero)) + ",") == goal
      invariant start == realEnd ==> done == goal
      invariant flag <==>
                gcdZero == 0 && start > realStart
                && GroupEnd(names, realStart, realEnd, 0, realStart + 1) < realEnd
      invariant result == (if flag then "{" else "") + done
    {
      GroupedBounds(names, start, realEnd, gcdZero);
      var end, gcd := FindGroup(names, start, realEnd, gcdZero);
      PrintGroups(names, start, realEnd, gcdZero);
      if gcdZero == 0 && start == realStart && end != realEnd - 1 {
        result := "{";
        flag := true;
      }
      var group := MungeGroup(names, start, end, gcd, realEnd, gcdZero);
      Appended(if flag then "{" else "", done, group,
               if end + 1 < realEnd then PrintBranches(GroupBranches(names, end + 1, realEnd, gcdZero)) + "," else "");
      result := result + group;
      result := result + ",";
      done := done + (group + ",");
      start := end + 1;
    }
    if gcdZero == 0 {
      PrintNames(names, realStart, realEnd);
      result := result[..|result| - 1] + if flag then "}" else "";
    }
  }

  // ---------- the round trip ----------

  lemma {:induction false} NoticedAnywhere(t: Tree, blank: bool)
    requires Noticed(t, true)
    ensures Noticed(t, blank)
  {
  }

  lemma {:induction false} QuotedTextProper(s: string, first: bool, rest: Tree)
    requires IsName(s) && Proper(rest, true) && Noticed(rest, true)
    ensures Proper(QuotedText(s, first, rest), true) && Noticed(QuotedText(s, first, rest), true)
    ensures s != "" ==>
              Print(QuotedText(s, first, rest)) != ""
              && !BraceWhitespace(Print(QuotedText(s, first, rest))[0])
    decreases |s|
  {
    if s != "" {
      QuotedTextProper(s[1..], false, rest);
      NoticedAnywhere(QuotedText(s[1..], false, rest), false);
    }
  }

  /** A group of two or more splits again when its common prefix is taken off. */
  lemma GroupSplitsAgain(a: seq<string>, start: nat, g: nat)
    requires start + 1 < g <= |a|
    ensures GroupEnd(a, start, g, GroupPrefix(a, start, g), start + 1) < g
  {
    hide CommonPrefix;
  }

  ghost predicate AllNames(a: seq<string>) {
    forall i :: 0 <= i < |a| ==> IsName(a[i])
  }

  lemma {:induction false} GroupTreeProper(a: seq<string>, start: nat, end: nat, z: nat)
    requires Grouped(a, start, end, z) && AllNames(a)
    ensures Proper(GroupTree(a, start, end, z), true) && Noticed(GroupTree(a, start, end, z), true)
    ensures var text := Print(GroupTree(a, start, end, z)); text != "" ==> !BraceWhitespace(text[0])
    decreases end - start, |a[start]| - z, 0
  {
    hide GroupBranches, Proper, Noticed, Print, Grouped, GroupPrefix, GroupEnd, IsName;
    GroupedBounds(a, start, end, z);
    GroupSplits(a, start, end, z);
    NameParts(a, start);
    var g := GroupEnd(a, start, end, z, start + 1);
    if g == start + 1 {
      ProperDone();
      QuotedTextProper(a[start][z..], true, Done);
      EmptyQuotedText(true);
    } else {
      var gcd := GroupPrefix(a, start, g);
      GroupBranchesProper(a, start, g, gcd);
      GroupSplitsAgain(a, start, g);
      BranchesAreMore(a, start, g, gcd);
      ProperAlt(GroupBranches(a, start, g, gcd));
      QuotedTextProper(a[start][z..gcd], true, Alt(GroupBranches(a, start, g, gcd), Done));
    }
  }

  lemma NameParts(a: seq<string>, i: nat)
    requires AllNames(a) && i < |a|
    ensures forall lo, hi :: 0 <= lo <= hi <= |a[i]| ==> IsName(a[i][lo..hi])
    ensures forall lo :: 0 <= lo <= |a[i]| ==> IsName(a[i][lo..])
  {
  }

  lemma ProperDone()
    ensures Proper(Done, true) && Noticed(Done, true) && Print(Done) == ""
  {
  }

  lemma EmptyQuotedText(first: bool)
    ensures QuotedText("", first, Done) == Done && Print(Done) == ""
  {
  }

  lemma BranchesAreMore(a: seq<string>, start: nat, end: nat, z: nat)
    requires Grouped(a, start, end, z)
    ensures GroupEnd(a, start, end, z, start + 1) < end ==> GroupBranches(a, start, end, z).More?
  {
    hide Grouped, GroupEnd;
  }

  lemma ProperAlt(bs: Branches)
    requires bs.More? && ProperBranches(bs) && NoticedBranches(bs)
    requires PrintBranches(bs) != "" ==> !BraceWhitespace(PrintBranches(bs)[0])
    ensures Proper(Alt(bs, Done), true) && Noticed(Alt(bs, Done), true)
  {
    assert |PrintBranches(bs)| > 0;
  }

  lemma {:induction false} GroupBranchesProper(a: seq<string>, start: nat, end: nat, z: nat)
    requires Grouped(a, start, end, z) && AllNames(a)
    ensures var bs := GroupBranches(a, start, end, z);
            ProperBranches(bs) && NoticedBranches(bs)
                && (PrintBranches(bs) != "" ==> !BraceWhitespace(PrintBranches(bs)[0]))
    decreases end - start, |a[start]| - z, 1
  {
    hide GroupTree, Proper, Noticed, Print, Grouped, GroupEnd;
    GroupedBounds(a, start, end, z);
    GroupSplits(a, start, end, z);
    GroupTreeProper(a, start, end, z);
    if GroupEnd(a, start, end, z, start + 1) < end {
      GroupBranchesProper(a, GroupEnd(a, start, end, z, start + 1), end, z);
    }
  }

  lemma NamesTreeProper(a: seq<string>, start: nat, end: nat)
    requires Grouped(a, start, end, 0) && AllNames(a)
    ensures Proper(NamesTree(a, start, end), true) && Noticed(NamesTree(a, start, end), true)
  {
    hide Grouped, GroupEnd, GroupTree, GroupBranches, Proper, Noticed, Print;
    GroupedBounds(a, start, end, 0);
    if GroupEnd(a, start, end, 0, start + 1) == end {
      GroupTreeProper(a, start, end, 0);
    } else {
      GroupBranchesProper(a, start, end, 0);
      BranchesAreMore(a, start, end, 0);
      ProperAlt(GroupBranches(a, start, end, 0));
    }
  }

  lemma {:induction false} DenoteQuotedText(s: string, first: bool, rest: Tree)
    ensures Denote(QuotedText(s, first, rest)) == Product([BackslashQuote(s, first)], Denote(rest))
  {
    hide Product;
    if s == "" {
      ProductUnitLeft(Denote(rest));
    } else {
      DenoteQuotedText(s[1..], false, rest);
      var head := if NeedsBackslash(s[0], first) then ['\\', s[0]] else [s[0]];
      ProductAssoc([head], [BackslashQuote(s[1..], false)], Denote(rest));
      ProductSingle(head, BackslashQuote(s[1..], false));
    }
  }

  /** r[k] quotes the name it stands for, without its first z characters. */
  ghost predicate QuotesAt(r: seq<string>, a: seq<string>, start: nat, z: nat, k: nat)
    requires k < |r| && start + k < |a|
  {
    z <= |a[start + k]| && Quotes(r[k], a[start + k][z..])
  }

  /** The list r quotes names start up to end, without their first z characters, in order. */
  ghost predicate QuotesAll(r: seq<string>, a: seq<string>, start: nat, end: nat, z: nat) {
    start <= end <= |a| && |r| == end - start && forall k :: 0 <= k < |r| ==> QuotesAt(r, a, start, z, k)
  }

  lemma QuotesAllAppend(r: seq<string>, r': seq<string>, a: seq<string>, start: nat, mid: nat, end: nat, z: nat)
    requires QuotesAll(r, a, start, mid, z) && QuotesAll(r', a, mid, end, z)
    ensures QuotesAll(r + r', a, start, end, z)
  {
    hide Quotes;
    var all := r + r';
    forall k | 0 <= k < |all| ensures QuotesAt(all, a, start, z, k) {
      if k < |r| {
        assert QuotesAt(r, a, start, z, k);
      } else {
        assert QuotesAt(r', a, mid, z, k - |r|) && start + k == mid + (k - |r|);
      }
    }
  }

  lemma QuotesAllPrefix(r: seq<string>, a: seq<string>, start: nat, end: nat, z: nat, z': nat)
    requires start < end && QuotesAll(r, a, start, end, z') && z <= z' <= |a[start]| && Grouped(a, start, end, z')
    ensures QuotesAll(Prefixed(BackslashQuote(a[start][z..z'], true), r), a, start, end, z)
  {
    hide Quotes, BackslashQuote;
    var piece := a[start][z..z'];
    var all := Prefixed(BackslashQuote(piece, true), r);
    forall k | 0 <= k < |r| ensures QuotesAt(all, a, start, z, k) {
      var name := a[start + k];
      assert QuotesAt(r, a, start, z', k);
      QuotesJoin(piece, true, r[k], name[z'..]);
      assert name[..z'][z..] == a[start][..z'][z..] == piece;
      assert name[z..] == name[..z'][z..] + name[z'..];
    }
  }

  lemma {:induction false} DenoteGroup(a: seq<string>, start: nat, end: nat, z: nat)
    requires Grouped(a, start, end, z)
    ensures QuotesAll(Denote(GroupTree(a, start, end, z)), a, start, GroupEnd(a, start, end, z, start + 1), z)
    decreases end - start, |a[start]| - z, 0
  {
    hide GroupBranches, Grouped, GroupPrefix, GroupEnd, Product, Denote, QuotesAll, BackslashQuote, QuotedText;
    GroupedBounds(a, start, end, z);
    GroupSplits(a, start, end, z);
    var g := GroupEnd(a, start, end, z, start + 1);
    if g == start + 1 {
      DenoteQuotedText(a[start][z..], true, Done);
      DenoteLast(BackslashQuote(a[start][z..], true));
      QuotesOne(a, start, z);
    } else {
      var gcd := GroupPrefix(a, start, g);
      var inner := GroupBranches(a, start, g, gcd);
      DenoteGroups(a, start, g, gcd);
      DenoteQuotedText(a[start][z..gcd], true, Alt(inner, Done));
      DenoteAlt(BackslashQuote(a[start][z..gcd], true), inner);
      QuotesAllPrefix(DenoteBranches(inner), a, start, g, z, gcd);
    }
  }

  lemma DenoteLast(s: string)
    ensures Product([s], Denote(Done)) == [s]
  {
    ProductUnitRight([s]);
  }

  lemma DenoteAlt(s: string, bs: Branches)
    ensures Product([s], Denote(Alt(bs, Done))) == Prefixed(s, DenoteBranches(bs))
  {
    ProductUnitRight(DenoteBranches(bs));
  }

  lemma QuotesOne(a: seq<string>, start: nat, z: nat)
    requires start < |a| && z <= |a[start]|
    ensures QuotesAll([BackslashQuote(a[start][z..], true)], a, start, start + 1, z)
  {
    var s := a[start][z..];
    QuotesJoin(s, true, "", "");
    assert s + "" == s && BackslashQuote(s, true) + "" == BackslashQuote(s, true);
  }

  lemma {:induction false} DenoteGroups(a: seq<string>, start: nat, end: nat, z: nat)
    requires Grouped(a, start, end, z)
    ensures QuotesAll(DenoteBranches(GroupBranches(a, start, end, z)), a, start, end, z)
    decreases end - start, |a[start]| - z, 1
  {
    hide GroupTree, Grouped, GroupEnd, Denote, QuotesAll;
    GroupedBounds(a, start, end, z);
    GroupSplits(a, start, end, z);
    DenoteGroup(a, start, end, z);
    var g := GroupEnd(a, start, end, z, start + 1);
    if g < end {
      DenoteGroups(a, g, end, z);
      QuotesAllAppend(Denote(GroupTree(a, start, end, z)), DenoteBranches(GroupBranches(a, g, end, z)), a, start, g,
          end, z);
    }
  }

  lemma DenoteNames(a: seq<string>, start: nat, end: nat)
    requires Grouped(a, start, end, 0)
    ensures QuotesAll(Denote(NamesTree(a, start, end)), a, start, end, 0)
  {
    hide Grouped, GroupEnd, GroupTree, GroupBranches, QuotesAll;
    GroupedBounds(a, start, end, 0);
    if GroupEnd(a, start, end, 0, start + 1) == end {
      DenoteGroup(a, start, end, 0);
    } else {
      DenoteGroups(a, start, end, 0);
      ProductUnitRight(DenoteBranches(GroupBranches(a, start, end, 0)));
    }
  }

  /** Expanding the compressed word gives back the sorted names, each quoted, in order and with
      duplicates; without quoting where no name has a character to quote. */
  lemma MungeRoundTrip(a: seq<string>, start: nat)
    requires start < |a| && Sorted(a[start..]) && AllNames(a)
    ensures Grouped(a, start, |a|, 0)
    ensures var r := Expand(Print(NamesTree(a, start, |a|)));
            && |r| == |a| - start
            && forall k :: 0 <= k < |r| ==>
                 && Unquote(r[k]) == a[start + k]
                 && (NothingToQuote(a[start + k]) ==> r[k] == a[start + k])
  {
    hide Expand, Print, Grouped, Quotes, NamesTree;
    SortedIsGrouped(a, start);
    NamesTreeProper(a, start, |a|);
    AsWord(NamesTree(a, start, |a|));
    ExpandPrint(NamesTree(a, start, |a|));
    DenoteNames(a, start, |a|);
    var r := Denote(NamesTree(a, start, |a|));
    forall k | 0 <= k < |r| ensures Unquote(r[k]) == a[start + k]
        && (NothingToQuote(a[start + k]) ==> r[k] == a[start + k]) {
      var name := a[start + k];
      assert name[0..] == name;
      assert QuotesAt(r, a, start, 0, k);
      UnquoteQuotes(r[k], name);
      if NothingToQuote(name) {
        QuotesPlain(r[k], name);
      }
    }
  }

  /** The two routines one after the other. */
  method CompressAndExpand(names: seq<string>) returns (result: seq<string>)
    requires names != [] && Sorted(names) && AllNames(names)
    ensures |result| == |names|
    ensures forall k :: 0 <= k < |names| ==>
              Unquote(result[k]) == names[k] && (NothingToQuote(names[k]) ==> result[k] == names[k])
  {
    assert names[0..] == names;
    MungeRoundTrip(names, 0);
    var word := ReallyMungeBraces(names, 0, |names|, 0);
    result := BraceExpand(word);
  }
}
