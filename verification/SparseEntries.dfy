/** What an indexed array holds: its entries in order of their index, and the map they stand for. */
module SparseEntries {
  import opened Wrappers

  /** An element's index and its value; a value may be missing. */
  datatype Entry = Entry(ind: int, value: Option<string>)

  predicate Ordered(s: seq<Entry>) {
    && (forall k :: 0 <= k < |s| ==> s[k].ind >= 0)
    && forall j, k :: 0 <= j < k < |s| ==> s[j].ind < s[k].ind
  }

  function ToMap(s: seq<Entry>): map<int, Option<string>> {
    if s == [] then map[] else ToMap(s[1..])[s[0].ind := s[0].value]
  }

  /** Element i set to v. */
  function Put(s: seq<Entry>, i: int, v: Option<string>): seq<Entry> {
    if s == [] || s[0].ind > i then [Entry(i, v)] + s
    else if s[0].ind == i then [Entry(i, v)] + s[1..]
    else [s[0]] + Put(s[1..], i, v)
  }

  /** Element i taken out. */
  function Drop(s: seq<Entry>, i: int): seq<Entry> {
    if s == [] then [] else if s[0].ind == i then s[1..] else [s[0]] + Drop(s[1..], i)
  }

  function Renumber(s: seq<Entry>, d: int): (r: seq<Entry>)
    ensures |r| == |s|
  {
    seq(|s|, k requires 0 <= k < |s| => Entry(s[k].ind + d, s[k].value))
  }

  function MaxIndex(s: seq<Entry>): int {
    if s == [] then -1 else s[|s| - 1].ind
  }

  /** What is left after the first n entries have been shifted out. */
  function ShiftLeft(s: seq<Entry>, n: nat): seq<Entry> {
    if n >= |s| then [] else Renumber(s[n..], -(n as int))
  }

  /** s shifted right, with v as the new element 0. */
  function ShiftRight(s: seq<Entry>, n: nat, v: Option<string>): seq<Entry> {
    (if v.Some? && n > 0 then [Entry(0, v)] else []) + Renumber(s, n)
  }

  /** list assigned to elements i, i + 1, ... */
  function PutAll(s: seq<Entry>, i: nat, list: seq<string>): seq<Entry>
    decreases |list|
  {
    if list == [] then s else PutAll(Put(s, i, Some(list[0])), i + 1, list[1..])
  }

  function Values(s: seq<Entry>): (r: seq<Option<string>>)
    ensures |r| == |s| && forall k :: 0 <= k < |s| ==> r[k] == s[k].value
  {
    seq(|s|, k requires 0 <= k < |s| => s[k].value)
  }

  // ---------- entries as a map ----------

  lemma OrderedTail(s: seq<Entry>)
    requires Ordered(s) && s != []
    ensures Ordered(s[1..]) && forall k :: 0 <= k < |s[1..]| ==> s[1..][k].ind > s[0].ind
  {
  }

  lemma {:induction false} MapHas(s: seq<Entry>, i: int)
    requires Ordered(s)
    ensures i in ToMap(s) <==> exists k :: 0 <= k < |s| && s[k].ind == i
    ensures forall k :: 0 <= k < |s| && s[k].ind == i ==> i in ToMap(s) && ToMap(s)[i] == s[k].value
  {
    if s != [] {
      OrderedTail(s);
      MapHas(s[1..], i);
      forall k | 0 < k < |s| ensures s[k] == s[1..][k - 1] {
      }
      if i in ToMap(s[1..]) {
        var k :| 0 <= k < |s[1..]| && s[1..][k].ind == i;
        assert s[k + 1].ind == i;
      }
    }
  }

  /** An entry's index is at least its position, and the last index is the largest. */
  lemma {:induction false} IndexAtLeast(s: seq<Entry>, k: nat)
    requires Ordered(s) && k < |s|
    ensures k <= s[k].ind <= MaxIndex(s)
  {
    if k > 0 {
      IndexAtLeast(s, k - 1);
    }
  }

  lemma OrderedAt(s: seq<Entry>, k: nat)
    requires Ordered(s) && k < |s|
    ensures s[k].ind >= 0 && (k > 0 ==> s[k - 1].ind < s[k].ind) && (k + 1 < |s| ==> s[k].ind < s[k + 1].ind)
  {
  }

  lemma AbsentBetween(s: seq<Entry>, k: nat, i: int)
    requires Ordered(s) && k <= |s| && (k > 0 ==> s[k - 1].ind < i) && (k < |s| ==> s[k].ind > i)
    ensures forall j :: 0 <= j < |s| ==> s[j].ind != i
  {
  }

  /** An operation on an indexed array. */
  datatype Operation = Assign(i: nat, v: Option<string>) | Unset(key: int) | Get(key: int)

  /** The array after an operation, and the value that the operation returns, on maps. */
  function Step(m: map<int, Option<string>>, op: Operation): (map<int, Option<string>>, Option<string>) {
    match op
    case Assign(i, v) => (m[i := v], None)
    case Unset(i) => (m - {i}, if i in m then m[i] else None)
    case Get(i) => (m, if i in m then m[i] else None)
  }

  /** The array after a run of operations, and what they return. */
  function Run(m: map<int, Option<string>>, ops: seq<Operation>): (map<int, Option<string>>, seq<Option<string>>) {
    if ops == [] then (m, [])
    else
      var (m', outs) := Run(m, ops[..|ops| - 1]);
      var (m'', out) := Step(m', ops[|ops| - 1]);
      (m'', outs + [out])
  }

  /** The value of element i, if there is one. */
  function Find(s: seq<Entry>, i: int): Option<string> {
    if i in ToMap(s) then ToMap(s)[i] else None
  }

  lemma FindAt(s: seq<Entry>, k: nat)
    requires Ordered(s) && k < |s|
    ensures Find(s, s[k].ind) == s[k].value && s[k].ind in ToMap(s)
  {
    MapHas(s, s[k].ind);
  }

  lemma DropHere(s: seq<Entry>, k: nat)
    requires Ordered(s) && k < |s|
    ensures Drop(s, s[k].ind) == s[..k] + s[k + 1..] && Ordered(Drop(s, s[k].ind))
    ensures MaxIndex(Drop(s, s[k].ind)) == if k < |s| - 1 then MaxIndex(s) else if k == 0 then -1 else s[k - 1].ind
  {
    hide ToMap, MaxIndex;
    DropAt(s, k);
    DropIsRemoval(s, s[k].ind);
    hide Ordered, Drop;
    MaxOfRemoval(s, k);
  }

  lemma MaxOfRemoval(s: seq<Entry>, k: nat)
    requires k < |s|
    ensures MaxIndex(s[..k] + s[k + 1..]) == if k < |s| - 1 then MaxIndex(s) else if k == 0 then -1 else s[k - 1].ind
  {
  }

  lemma LastEntry(s: seq<Entry>, k: nat)
    requires Ordered(s) && k < |s|
    ensures s[k].ind == MaxIndex(s) <==> k == |s| - 1
  {
  }

  lemma FindAbsent(s: seq<Entry>, i: int)
    requires Ordered(s) && forall k :: 0 <= k < |s| ==> s[k].ind != i
    ensures Find(s, i) == None && Drop(s, i) == s && i !in ToMap(s)
  {
    MapHas(s, i);
    DropAbsent(s, i);
  }

  lemma OutOfRange(s: seq<Entry>, i: int)
    requires Ordered(s) && (s != [] ==> i > MaxIndex(s) || i < s[0].ind)
    ensures forall k :: 0 <= k < |s| ==> s[k].ind != i
  {
    forall k | 0 <= k < |s| ensures s[0].ind <= s[k].ind <= MaxIndex(s) {
      IndexAtLeast(s, k);
    }
  }

  /** Put at a known place. */
  lemma {:induction false} PutAt(s: seq<Entry>, p: nat, i: int, v: Option<string>)
    requires p <= |s| && (forall k :: 0 <= k < p ==> s[k].ind < i) && (p < |s| ==> s[p].ind > i)
    ensures Put(s, i, v) == s[..p] + [Entry(i, v)] + s[p..]
  {
    if p > 0 {
      var t := s[1..];
      PutAt(t, p - 1, i, v);
      assert s[..p] == [s[0]] + t[..p - 1] && s[p..] == t[p - 1..];
    }
  }

  lemma {:induction false} PutOver(s: seq<Entry>, p: nat, i: int, v: Option<string>)
    requires p < |s| && (forall k :: 0 <= k < p ==> s[k].ind < i) && s[p].ind == i
    ensures Put(s, i, v) == s[p := Entry(i, v)]
  {
    if p > 0 {
      var t := s[1..];
      PutOver(t, p - 1, i, v);
      assert s[p := Entry(i, v)] == [s[0]] + t[p - 1 := Entry(i, v)];
    }
  }

  lemma {:induction false} DropAt(s: seq<Entry>, p: nat)
    requires p < |s| && forall k :: 0 <= k < p ==> s[k].ind != s[p].ind
    ensures Drop(s, s[p].ind) == s[..p] + s[p + 1..]
  {
    if p > 0 {
      var t := s[1..];
      forall k | 0 <= k < p - 1 ensures t[k].ind != t[p - 1].ind {
        assert t[k] == s[k + 1];
      }
      DropAt(t, p - 1);
      assert s[..p] == [s[0]] + t[..p - 1] && s[p + 1..] == t[p..];
    }
  }

  lemma {:induction false} DropAbsent(s: seq<Entry>, i: int)
    requires forall k :: 0 <= k < |s| ==> s[k].ind != i
    ensures Drop(s, i) == s
  {
    if s != [] {
      forall k | 0 <= k < |s| - 1 ensures s[1..][k].ind != i {
        assert s[1..][k] == s[k + 1];
      }
      DropAbsent(s[1..], i);
    }
  }

  /** Setting an element is a map update, and leaves the entries in order. */
  lemma {:induction false} PutIsUpdate(s: seq<Entry>, i: int, v: Option<string>)
    requires Ordered(s) && i >= 0
    ensures Ordered(Put(s, i, v)) && ToMap(Put(s, i, v)) == ToMap(s)[i := v]
    ensures s != [] && i > s[0].ind ==> Put(s, i, v)[0] == s[0]
    ensures Put(s, i, v) != [] && Put(s, i, v)[0].ind == if s == [] || i < s[0].ind then i else s[0].ind
    decreases s
  {
    if s != [] {
      OrderedTail(s);
      var t := s[1..];
      if s[0].ind < i {
        PutIsUpdate(t, i, v);
        var r := Put(t, i, v);
        assert Put(s, i, v) == [s[0]] + r && ([s[0]] + r)[1..] == r;
        OrderedCons(s[0], r);
      } else if s[0].ind == i {
        assert Put(s, i, v)[1..] == t;
        OrderedCons(Entry(i, v), t);
      } else {
        assert Put(s, i, v)[1..] == s;
        OrderedCons(Entry(i, v), s);
      }
    }
  }

  lemma OrderedCons(e: Entry, t: seq<Entry>)
    requires Ordered(t) && e.ind >= 0 && (t != [] ==> e.ind < t[0].ind)
    ensures Ordered([e] + t)
  {
    var s := [e] + t;
    forall j, k | 0 <= j < k < |s| ensures s[j].ind < s[k].ind {
      assert s[k] == t[k - 1];
      if j > 0 {
        assert s[j] == t[j - 1];
      }
    }
  }

  /** Taking an element out removes its key. */
  lemma {:induction false} DropIsRemoval(s: seq<Entry>, i: int)
    requires Ordered(s)
    ensures Ordered(Drop(s, i)) && ToMap(Drop(s, i)) == ToMap(s) - {i}
    ensures Drop(s, i) != [] ==> s != [] && Drop(s, i)[0].ind >= s[0].ind
    decreases s
  {
    if s != [] {
      OrderedTail(s);
      var t := s[1..];
      if s[0].ind == i {
        MapHas(t, i);
      } else {
        DropIsRemoval(t, i);
        var r := Drop(t, i);
        assert ([s[0]] + r)[1..] == r;
        OrderedCons(s[0], r);
      }
    }
  }

  /** Put at place p, where i belongs: every fact about the result. */
  lemma PutNew(s: seq<Entry>, p: nat, i: int, v: Option<string>)
    requires Ordered(s) && i >= 0 && p <= |s|
    requires p > 0 ==> s[p - 1].ind < i
    requires p < |s| ==> s[p].ind > i
    ensures Put(s, i, v) == s[..p] + [Entry(i, v)] + s[p..] && Ordered(Put(s, i, v))
    ensures MaxIndex(Put(s, i, v)) == if p == |s| then i else MaxIndex(s)
  {
    hide *;
    AllBelow(s, p, i);
    PutAt(s, p, i, v);
    PutIsUpdate(s, i, v);
    MaxOfSplice(s, p, Entry(i, v));
  }

  lemma MaxOfSplice(s: seq<Entry>, p: nat, e: Entry)
    requires p <= |s|
    ensures MaxIndex(s[..p] + [e] + s[p..]) == if p == |s| then e.ind else MaxIndex(s)
  {
    var r := s[..p] + [e] + s[p..];
    assert r[|s|] == if p == |s| then e else s[|s| - 1];
  }

  lemma AllBelow(s: seq<Entry>, p: nat, i: int)
    requires Ordered(s) && p <= |s| && (p > 0 ==> s[p - 1].ind < i)
    ensures forall k :: 0 <= k < p ==> s[k].ind < i
  {
  }

  function Updated(s: seq<Entry>, p: nat, v: Option<string>): seq<Entry>
    requires p < |s|
  {
    s[p := Entry(s[p].ind, v)]
  }

  lemma PutOld(s: seq<Entry>, p: nat, v: Option<string>)
    requires Ordered(s) && p < |s|
    ensures Put(s, s[p].ind, v) == Updated(s, p, v) && Ordered(Put(s, s[p].ind, v))
    ensures MaxIndex(Put(s, s[p].ind, v)) == MaxIndex(s)
  {
    hide Put, ToMap;
    OrderedAt(s, p);
    AllBelow(s, p, s[p].ind);
    PutOver(s, p, s[p].ind, v);
    PutIsUpdate(s, s[p].ind, v);
  }

  // ---------- renumbering ----------

  /** Shifting left keeps the entries in order, with no index below 0. */
  lemma ShiftLeftOrdered(s: seq<Entry>, n: nat)
    requires Ordered(s)
    ensures Ordered(ShiftLeft(s, n)) && |ShiftLeft(s, n)| == if n < |s| then |s| - n else 0
    ensures forall k :: n <= k < |s| ==> ShiftLeft(s, n)[k - n] == Entry(s[k].ind - n, s[k].value)
  {
    if n < |s| {
      forall k | n <= k < |s| ensures s[k].ind >= n {
        IndexAtLeast(s, k);
      }
    }
  }

  lemma ShiftLeftFacts(s: seq<Entry>, n: nat)
    requires Ordered(s) && n < |s|
    ensures var r := Renumber(s[n..], -(n as int));
            r == ShiftLeft(s, n) && Ordered(r) && |r| == |s| - n
  {
    ShiftLeftOrdered(s, n);
  }

  lemma ShiftRightOrdered(s: seq<Entry>, n: nat, v: Option<string>)
    requires Ordered(s) && n > 0
    ensures Ordered(ShiftRight(s, n, v))
    ensures ShiftRight(s, n, v) == if v.Some? then [Entry(0, v)] + Renumber(s, n) else Renumber(s, n)
  {
    var r := Renumber(s, n);
    if v.Some? {
      OrderedCons(Entry(0, v), r);
    }
  }

  /** Shifting right adds to every index, behind a new element 0 if one is given. */
  lemma ShiftRightLaw(s: seq<Entry>, n: nat, v: Option<string>)
    requires n > 0
    ensures var r, c := ShiftRight(s, n, v), if v.Some? then 1 else 0;
            && |r| == |s| + c && (v.Some? ==> r[0] == Entry(0, v))
            && forall k :: 0 <= k < |s| ==> r[k + c] == Entry(s[k].ind + n, s[k].value)
  {
  }

  lemma ShiftRightIntoEmpty(n: nat, v: Option<string>)
    requires v.Some? && n > 0
    ensures ShiftRight([], n, v) == [Entry(0, v)] + [] && MaxIndex([Entry(0, v)] + []) == 0
            && Ordered([Entry(0, v)] + [])
  {
  }

  lemma RenumberSplit(s: seq<Entry>, k: nat, d: int)
    requires k <= |s|
    ensures k == 0 ==> s[..k] + Renumber(s[k..], d) == Renumber(s, d)
    ensures k == 1 ==> s[..k] + Renumber(s[k..], d) == [s[0]] + Renumber(s[1..], d)
  {
    if k == 0 {
      assert s[0..] == s;
    }
  }

  lemma RenumberBack(s: seq<Entry>, d: int)
    ensures Renumber(Renumber(s, d), -d) == s
  {
  }

  /** Pushing an element on the front and shifting it out again changes nothing. */
  lemma ShiftInverse(s: seq<Entry>, v: string)
    ensures ShiftLeft(ShiftRight(s, 1, Some(v)), 1) == s
  {
    var r := ShiftRight(s, 1, Some(v));
    assert r[1..] == Renumber(s, 1);
    RenumberBack(s, 1);
  }

  // ---------- lists ----------

  /** Entries 0, 1, ... with the words of a list. */
  function FromList(list: seq<string>): (s: seq<Entry>)
    ensures |s| == |list| && forall k :: 0 <= k < |s| ==> s[k] == Entry(k, Some(list[k]))
  {
    seq(|list|, k requires 0 <= k < |list| => Entry(k, Some(list[k])))
  }

  lemma {:induction false} PutAllFrom(list: seq<string>, i: nat)
    requires i <= |list|
    ensures PutAll(FromList(list[..i]), i, list[i..]) == FromList(list)
    decreases |list| - i
  {
    if i == |list| {
      assert list[..i] == list;
    } else {
      var s := FromList(list[..i]);
      PutAt(s, i, i, Some(list[i]));
      assert Put(s, i, Some(list[i])) == FromList(list[..i + 1]);
      assert list[i..][1..] == list[i + 1..];
      PutAllFrom(list, i + 1);
    }
  }

  /** A list assigned to an empty array reads back as the list. */
  lemma ListRoundTrip(list: seq<string>)
    ensures Values(PutAll([], 0, list)) == seq(|list|, k requires 0 <= k < |list| => Some(list[k]))
  {
    assert FromList(list[..0]) == [] && list[0..] == list;
    PutAllFrom(list, 0);
  }

  function Reverse<T>(s: seq<T>): seq<T> {
    if s == [] then [] else Reverse(s[1..]) + [s[0]]
  }

  lemma {:induction false} ReverseSnoc<T>(s: seq<T>, x: T)
    ensures Reverse(s + [x]) == [x] + Reverse(s)
  {
    if s != [] {
      assert (s + [x])[1..] == s[1..] + [x];
      ReverseSnoc(s[1..], x);
    }
  }

  lemma {:induction false} ReverseTwice<T>(s: seq<T>)
    ensures Reverse(Reverse(s)) == s
  {
    if s != [] {
      ReverseTwice(s[1..]);
      ReverseSnoc(Reverse(s[1..]), s[0]);
    }
  }
}
