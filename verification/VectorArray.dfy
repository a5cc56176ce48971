/** The other form of indexed arrays, in array2.c: a vector of pointers that grows by doubling. */
module VectorArray {
  import opened SparseEntries
  import opened Wrappers

  const ARRAY_DEFAULT_SIZE := 1024
  const ARRAY_MAX_DOUBLE := 16777216

  class Element {
    var ind: int
    var value: Option<string>

    constructor (indx: int, value: Option<string>)
      ensures ind == indx && this.value == value
    {
      ind, this.value := indx, value;
    }
  }

  /** The first of size, twice size, four times size, ... that is more than n. */
  function Doubled(size: nat, n: int): (r: nat)
    requires size > 0
    ensures r > n && r >= size && (r > size ==> r <= 2 * n)
    decreases n - size
  {
    if n < size then size else Doubled(2 * size, n)
  }

  /** The size of the vector after it has been made larger for index n: by doubling, up to 2 to the 24th elements, and
      after that to 1024 more than are needed. */
  function NewSize(alloc_size: nat, n: int): nat
    requires n >= 0
  {
    var nsize := Doubled(if alloc_size != 0 then alloc_size else ARRAY_DEFAULT_SIZE, n);
    if nsize > ARRAY_MAX_DOUBLE then n + ARRAY_DEFAULT_SIZE else nsize
  }

  /** The elements of a vector as a map. */
  ghost function MapOf(v: seq<Element?>): (m: map<int, Option<string>>)
    reads v
  {
    map j | 0 <= j < |v| && v[j] != null :: v[j].value
  }

  /** Room at the end changes nothing. */
  lemma Extended(v: seq<Element?>, w: seq<Element?>)
    requires |v| <= |w| && forall j :: 0 <= j < |w| ==> w[j] == if j < |v| then v[j] else null
    ensures MapOf(v) == MapOf(w)
  {
  }

  lemma InMap(v: seq<Element?>, i: nat)
    requires i < |v|
    ensures i in MapOf(v) <==> v[i] != null
  {
  }

  /** An element put into a free slot. */
  lemma Placed(v: seq<Element?>, i: nat, el: Element)
    requires i < |v| && v[i] == null
    ensures MapOf(v[i := el]) == MapOf(v)[i := el.value] && |MapOf(v[i := el])| == |MapOf(v)| + 1
  {
  }

  /** A slot cleared. */
  lemma Cleared(v: seq<Element?>, i: nat)
    requires i < |v|
    ensures MapOf(v[i := null]) == MapOf(v) - {i}
    ensures |MapOf(v[i := null])| == if v[i] == null then |MapOf(v)| else |MapOf(v)| - 1
  {
    var m := MapOf(v);
    assert (m - {i}).Keys == m.Keys - {i};
  }

  // ---------- first_index ----------

  predicate LeastIn(m: map<int, Option<string>>, i: int) {
    i in m && forall k :: k in m ==> i <= k
  }

  lemma {:induction false} HasLeast(m: map<int, Option<string>>)
    requires m != map[]
    ensures exists i :: LeastIn(m, i)
    decreases |m|
  {
    assert (forall k :: k !in m) ==> m == map[];
    var k :| k in m;
    var less := m - {k};
    assert less.Keys == m.Keys - {k} && |less| == |m| - 1;
    if less == map[] {
      assert LeastIn(m, k);
    } else {
      HasLeast(less);
      var i :| LeastIn(less, i);
      assert forall j :: j in m ==> j == k || j in less;
      assert LeastIn(m, if i < k then i else k);
    }
  }

  ghost function Least(m: map<int, Option<string>>): (i: int)
    requires m != map[]
    ensures LeastIn(m, i)
  {
    HasLeast(m);
    var i :| LeastIn(m, i);
    i
  }

  lemma OneLeast(m: map<int, Option<string>>, i: int)
    ensures LeastIn(m, i) ==> m != map[] && Least(m) == i
  {
    if LeastIn(m, i) {
      assert m != map[];
    }
  }

  /** What first_index is meant to be. */
  predicate ExactFirst(m: map<int, Option<string>>, first: int) {
    if m == map[] then first == -1 else LeastIn(m, first)
  }

  /** What becomes of first_index. */
  ghost function FirstAfter(m: map<int, Option<string>>, first: int, op: Operation): int {
    match op
    case Assign(i, _) => if first < 0 || i < first then i else first
    case Unset(i) => if i !in m then first else if Empties(m, op) then 0 else if i == first then Least(m - {i})
        else first
    case Get(_) => first
  }

  ghost function RunFirst(m: map<int, Option<string>>, first: int, ops: seq<Operation>): int {
    if ops == [] then first
    else
      var before := ops[..|ops| - 1];
      FirstAfter(Run(m, before).0, RunFirst(m, first, before), ops[|ops| - 1])
  }

  /** The operation takes the only element out. */
  predicate Empties(m: map<int, Option<string>>, op: Operation) {
    op.Unset? && op.key in m && m - {op.key} == map[]
  }

  /** Whenever the run takes the last element out, it sets element 0 at some time after that. */
  ghost predicate RefilledFromZero(ops: seq<Operation>) {
    forall k :: 0 <= k < |ops| && EmptiedAt(ops, k) ==> ZeroSet(ops, k)
  }

  predicate ZeroSet(ops: seq<Operation>, k: nat) {
    exists j :: k < j < |ops| && ops[j].Assign? && ops[j].i == 0
  }

  /** One step from an exact first_index, and from one that is 0 without an element 0. */
  lemma FirstStep(m: map<int, Option<string>>, first: int, op: Operation)
    requires (forall k :: k in m ==> k >= 0) && (ExactFirst(m, first) || (first == 0 && 0 !in m))
    ensures var m', first' := Step(m, op).0, FirstAfter(m, first, op);
            && (forall k :: k in m' ==> k >= 0) && (ExactFirst(m', first') || (first' == 0 && 0 !in m'))
            && (ExactFirst(m', first') <==> !Empties(m, op) && (ExactFirst(m, first) || (op.Assign? && op.i == 0)))
  {
    var m' := Step(m, op).0;
    if op.Assign? {
      assert op.i in m';
    } else if op.Unset? && op.key in m {
      assert forall k :: k in m' <==> k in m && k != op.key;
    } else if op.Unset? {
      assert m' == m;
    }
  }

  /** Element 0 is set after place k of a run with one more operation. */
  lemma ZeroSetMore(ops: seq<Operation>, op: Operation, k: nat)
    requires k < |ops|
    ensures ZeroSet(ops + [op], k) <==> ZeroSet(ops, k) || (op.Assign? && op.i == 0)
  {
    var more := ops + [op];
    if ZeroSet(ops, k) {
      var j :| k < j < |ops| && ops[j].Assign? && ops[j].i == 0;
      assert more[j] == ops[j];
    }
    if op.Assign? && op.i == 0 {
      assert more[|ops|] == op;
    }
    if ZeroSet(more, k) {
      var j :| k < j < |more| && more[j].Assign? && more[j].i == 0;
      assert j < |ops| ==> ops[j] == more[j];
    }
  }

  /** The operation at place k takes the last element out. */
  ghost predicate EmptiedAt(ops: seq<Operation>, k: nat)
    requires k < |ops|
  {
    Empties(Run(map[], ops[..k]).0, ops[k])
  }

  lemma EmptiedAtMore(ops: seq<Operation>, op: Operation, k: nat)
    requires k <= |ops|
    ensures EmptiedAt(ops + [op], k) == if k < |ops| then EmptiedAt(ops, k) else Empties(Run(map[], ops).0, op)
  {
    hide Empties, Run;
    assert (ops + [op])[..k] == ops[..k];
    assert ops[..|ops|] == ops;
  }

  lemma RefilledMore(ops: seq<Operation>, op: Operation)
    ensures RefilledFromZero(ops + [op]) <==>
            !Empties(Run(map[], ops).0, op) && (RefilledFromZero(ops) || (op.Assign? && op.i == 0))
  {
    hide Empties, Run, EmptiedAt;
    var more, n := ops + [op], |ops|;
    EmptiedAtMore(ops, op, n);
    assert !ZeroSet(more, n);
    forall k | 0 <= k < n
      ensures EmptiedAt(more, k) == EmptiedAt(ops, k)
              && (ZeroSet(more, k) <==> ZeroSet(ops, k) || (op.Assign? && op.i == 0))
    {
      EmptiedAtMore(ops, op, k);
      ZeroSetMore(ops, op, k);
    }
    hide ZeroSet;
    if RefilledFromZero(more) && !(op.Assign? && op.i == 0) {
      forall k | 0 <= k < n && EmptiedAt(ops, k) ensures ZeroSet(ops, k) {
        assert EmptiedAt(more, k);
      }
    }
  }

  /** After any run from the empty array, first_index is exact if and only if each time that the last element
      was taken out element 0 was set later on. */
  lemma {:induction false} FirstIndexExactly(ops: seq<Operation>)
    ensures var m, first := Run(map[], ops).0, RunFirst(map[], -1, ops);
            && (forall k :: k in m ==> k >= 0) && (ExactFirst(m, first) || (first == 0 && 0 !in m))
            && (ExactFirst(m, first) <==> RefilledFromZero(ops))
  {
    if ops != [] {
      hide ExactFirst, FirstAfter, Step, RefilledFromZero, Empties;
      var before, op := ops[..|ops| - 1], ops[|ops| - 1];
      assert ops == before + [op];
      FirstIndexExactly(before);
      FirstStep(Run(map[], before).0, RunFirst(map[], -1, before), op);
      RefilledMore(before, op);
    }
  }

  /** An array that was emptied and filled again: the only element is element 7, and first_index is 0. */
  lemma EmptiedAndRefilled(v: Option<string>, w: Option<string>)
    ensures var ops := [Assign(5, v), Unset(5), Assign(7, w)];
            Run(map[], ops).0 == map[7 := w] && RunFirst(map[], -1, ops) == 0 && !ExactFirst(map[7 := w], 0)
  {
    var ops := [Assign(5, v), Unset(5), Assign(7, w)];
    assert ops[..2] == [Assign(5, v), Unset(5)] && ops[..2][..1] == [Assign(5, v)] && ops[..2][..1][..0] == [];
    assert Run(map[], ops[..2][..1]).0 == map[5 := v];
    assert map[5 := v] - {5} == map[];
    assert Run(map[], ops[..2]).0 == map[];
  }

  class Vector {
    var max_index: int
    var first_index: int
    var num_elements: int
    var alloc_size: int
    var elements: array<Element?>
    ghost var Repr: set<object>

    ghost function Contents(): map<int, Option<string>>
      reads this, elements, elements[..]
    {
      MapOf(elements[..])
    }

    /** Every element is in its slot, between first_index and max_index, and num_elements counts them. */
    ghost predicate Bounded()
      reads this, Repr
    {
      && this in Repr && elements in Repr
      && (forall j :: 0 <= j < elements.Length && elements[j] != null ==> elements[j] in Repr)
      && elements.Length == alloc_size
      && (forall j :: 0 <= j < alloc_size && elements[j] != null ==>
            elements[j].ind == j && first_index <= j <= max_index)
      && -1 <= max_index < alloc_size
      && num_elements == |Contents()|
    }

    /** Also, max_index is exact; first_index is only known not to be above any element. */
    ghost predicate Valid()
      reads this, Repr
    {
      Bounded() && (max_index >= 0 ==> elements[max_index] != null && first_index >= 0)
    }

    constructor ()
      ensures Valid() && Contents() == map[] && fresh(Repr) && first_index == -1
    {
      max_index, first_index, num_elements, alloc_size := -1, -1, 0, 0;
      elements := new Element?[0];
      new;
      Repr := {this, elements};
    }

    /** A vector of n slots that begins with the present elements. */
    method Reallocated(n: int) returns (e: array<Element?>)
      requires elements.Length == alloc_size && n >= alloc_size
      ensures fresh(e) && e.Length == n && forall j :: 0 <= j < n ==>
                                             e[j] == if j < alloc_size then elements[j] else null
    {
      e := new Element?[n];
      var i := 0;
      while i < alloc_size
        modifies e
        invariant 0 <= i <= alloc_size
        invariant forall j :: 0 <= j < i ==> e[j] == elements[j]
      {
        e[i] := elements[i];
        i := i + 1;
      }
      while i < n
        modifies e
        invariant alloc_size <= i <= n
        invariant forall j :: 0 <= j < i ==> e[j] == if j < alloc_size then elements[j] else null
      {
        e[i] := null;
        i := i + 1;
      }
    }

    /** array_resize, for a size that cuts off no element. */
    method Resize(n: int)
      requires Valid() && n > max_index
      modifies Repr
      ensures Valid() && fresh(Repr - old(Repr)) && Contents() == old(Contents())
      ensures alloc_size == if 0 < old(alloc_size) && n <= old(alloc_size) then old(alloc_size) else n
      ensures max_index == old(max_index) && first_index == old(first_index)
    {
      if alloc_size > 0 && n >= max_index && n <= alloc_size {
        return;
      }
      var e := Reallocated(n);
      Adopt(e);
    }

    /** Makes e, which has every element in its place, the vector. */
    method Adopt(e: array<Element?>)
      requires Valid() && alloc_size <= e.Length && e !in Repr
      requires forall j :: 0 <= j < e.Length ==> e[j] == if j < alloc_size then elements[j] else null
      modifies this`elements, this`alloc_size, this`Repr
      ensures Valid() && Repr == old(Repr) + {e} && Contents() == old(Contents()) && alloc_size == e.Length
    {
      hide MapOf;
      Extended(elements[..], e[..]);
      elements := e;
      alloc_size := e.Length;
      Repr := Repr + {e};
    }

    /** array_expand: makes room for index n. */
    method Expand(n: int)
      requires Valid() && n >= 0
      modifies Repr
      ensures Valid() && fresh(Repr - old(Repr)) && Contents() == old(Contents())
      ensures alloc_size == if n < old(alloc_size) then old(alloc_size) else NewSize(old(alloc_size), n)
      ensures alloc_size > n && alloc_size >= old(alloc_size)
      ensures max_index == old(max_index) && first_index == old(first_index)
    {
      if n >= alloc_size {
        var nsize := if alloc_size != 0 then alloc_size else ARRAY_DEFAULT_SIZE;
        while n >= nsize
          invariant nsize > 0 && nsize >= alloc_size
          invariant Doubled(nsize, n) == Doubled(if alloc_size != 0 then alloc_size else ARRAY_DEFAULT_SIZE, n)
          decreases n - nsize
        {
          nsize := nsize * 2;
        }
        if nsize > ARRAY_MAX_DOUBLE {
          nsize := n + ARRAY_DEFAULT_SIZE;
        }
        Resize(nsize);
      }
    }

    /** array_insert: sets element i to v. It returns 0 for an element that was there, and -1 for a new one. */
    method Insert(i: int, v: Option<string>) returns (rc: int)
      requires Valid() && i >= 0
      modifies Repr
      ensures Valid() && fresh(Repr - old(Repr)) && Contents() == old(Contents())[i := v]
      ensures rc == if i in old(Contents()) then 0 else -1
      ensures alloc_size == if i < old(alloc_size) then old(alloc_size) else NewSize(old(alloc_size), i)
      ensures first_index == if old(first_index) < 0 || i < old(first_index) then i else old(first_index)
    {
      hide MapOf;
      if i >= alloc_size {
        Expand(i);
      }
      InMap(elements[..], i);
      var found := elements[i];
      Stretch(i);
      if found != null {
        Replace(found, i, v);
        rc := 0;
      } else {
        Place(i, v);
        rc := -1;
      }
    }

    /** Moves max_index and first_index so that i is between them. */
    method Stretch(i: int)
      requires Valid() && 0 <= i < alloc_size
      modifies this`max_index, this`first_index
      ensures Bounded() && Contents() == old(Contents()) && max_index == if i > old(max_index) then i
              else old(max_index)
      ensures first_index == if old(first_index) < 0 || i < old(first_index) then i else old(first_index)
    {
      hide MapOf;
      if i > max_index {
        max_index := i;
      }
      if first_index < 0 || i < first_index {
        first_index := i;
      }
      assert Contents() == old(Contents());
    }

    method Replace(found: Element, i: int, v: Option<string>)
      requires Bounded() && 0 <= i < alloc_size && elements[i] == found
      modifies found
      ensures Bounded() && Contents() == old(Contents())[i := v]
    {
      ghost var m := Contents();
      found.value := v;
      found.ind := i;
      assert Contents() == m[i := v];
    }

    method Place(i: int, v: Option<string>)
      requires Bounded() && first_index <= i <= max_index && 0 <= i && elements[i] == null
      modifies Repr
      ensures Bounded() && fresh(Repr - old(Repr)) && elements == old(elements) && elements[i] != null
      ensures Contents() == old(Contents())[i := v] && max_index == old(max_index) && first_index == old(first_index)
      ensures forall j :: 0 <= j < elements.Length && j != i ==> elements[j] == old(elements[j])
    {
      hide MapOf;
      var el := new Element(i, v);
      ghost var s := elements[..];
      Placed(s, i, el);
      elements[i] := el;
      num_elements := num_elements + 1;
      Repr := Repr + {el};
      assert elements[..] == s[i := el];
    }

    /** array_reference: the value of element i, or None. */
    method Reference(i: int) returns (v: Option<string>)
      requires Valid()
      ensures v == if i in Contents() then Contents()[i] else None
    {
      EmptyOrNot();
      if num_elements == 0 || i > max_index || i < first_index {
        return None;
      }
      var ae := elements[i];
      v := if ae != null then ae.value else None;
    }

    /** The array is empty just when max_index is -1. */
    lemma EmptyOrNot()
      requires Valid()
      ensures num_elements == 0 <==> Contents() == map[]
      ensures num_elements == 0 <==> max_index == -1
    {
      assert max_index >= 0 ==> max_index in Contents();
      if Contents() != map[] {
        var j :| j in Contents();
      }
    }

    /** Empties slot i. */
    method Clear(i: int)
      requires Bounded() && 0 <= i < alloc_size && elements[i] != null
      modifies elements, this`num_elements
      ensures Bounded() && Contents() == old(Contents()) - {i} && elements[i] == null
              && num_elements == old(num_elements) - 1
      ensures forall j :: 0 <= j < elements.Length && j != i ==> elements[j] == old(elements[j])
    {
      hide MapOf;
      ghost var s := elements[..];
      Cleared(s, i);
      elements[i] := null;
      num_elements := num_elements - 1;
      assert elements[..] == s[i := null];
    }

    /** array_remove: takes element i out and returns it, or null. When the array becomes empty, first_index
        becomes 0 and not -1. */
    method Remove(i: int) returns (ae: Element?)
      requires Valid()
      modifies Repr
      ensures Valid() && Repr == old(Repr) && Contents() == old(Contents()) - {i}
      ensures ae != null <==> i in old(Contents())
      ensures ae != null ==> ae.ind == i && ae.value == old(Contents())[i] && ae !in elements[..]
      ensures first_index == FirstAfter(old(Contents()), old(first_index), Unset(i))
    {
      EmptyOrNot();
      if num_elements == 0 || i > max_index || i < first_index {
        return null;
      }
      InMap(elements[..], i);
      ae := elements[i];
      if ae != null {
        TakeOut(i);
      }
    }

    /** Empties slot i and puts the bookkeeping right. */
    method TakeOut(i: int)
      requires Valid() && 0 <= i < alloc_size && elements[i] != null && i in Contents()
      modifies elements, this`num_elements, this`max_index, this`first_index
      ensures Valid() && Contents() == old(Contents()) - {i} && elements[..] == old(elements[..])[i := null]
      ensures first_index == FirstAfter(old(Contents()), old(first_index), Unset(i))
    {
      hide MapOf, LeastIn;
      Clear(i);
      Shrink(i);
      FirstIsLeast();
    }

    lemma FirstIsLeast()
      requires Bounded()
      ensures 0 <= first_index < alloc_size && elements[first_index] != null ==>
                Contents() != map[] && Least(Contents()) == first_index
    {
      if 0 <= first_index < alloc_size && elements[first_index] != null {
        OneLeast(Contents(), first_index);
      }
    }

    /** Moves max_index and first_index after element i has been taken out. */
    method Shrink(i: int)
      requires Bounded() && 0 <= first_index <= i <= max_index && elements[i] == null
      requires i < max_index ==> elements[max_index] != null
      modifies this`max_index, this`first_index
      ensures Valid() && Contents() == old(Contents()) && (Contents() == map[] ==> first_index == 0)
      ensures Contents() != map[] && i != old(first_index) ==> first_index == old(first_index)
      ensures Contents() != map[] && i == old(first_index)
              ==> 0 <= first_index < alloc_size && elements[first_index] != null
    {
      hide MapOf;
      NoneOrSome();
      if num_elements == 0 {
        first_index := if max_index == -1 then 1 else 0;
      }
      if i == max_index {
        var ind := i;
        while ind >= first_index && elements[ind] == null
          invariant first_index - 1 <= ind <= i
          invariant forall j :: ind < j <= i ==> elements[j] == null
          decreases ind
        {
          ind := ind - 1;
        }
        max_index := ind;
      }
      if i == first_index {
        var ind := i;
        while ind <= max_index && elements[ind] == null
          invariant i <= ind && (ind <= max_index + 1 || ind == i)
          invariant forall j :: i <= j < ind ==> elements[j] == null
          decreases max_index - ind
        {
          ind := ind + 1;
        }
        first_index := ind;
      }
    }

    /** There is an element unless num_elements is 0. */
    lemma NoneOrSome()
      requires Bounded()
      ensures num_elements == 0 <==> forall j :: 0 <= j < elements.Length ==> elements[j] == null
      ensures num_elements == 0 <==> Contents() == map[]
    {
      if Contents() != map[] {
        var j :| j in Contents();
      }
      forall j | 0 <= j < elements.Length && elements[j] != null ensures j in Contents() {
      }
    }

    /** Any run of operations does what it does on a map, and so what the other form of arrays does. */
    method Replay(ops: seq<Operation>) returns (outs: seq<Option<string>>)
      requires Valid()
      modifies Repr
      ensures Valid() && fresh(Repr - old(Repr)) && (Contents(), outs) == Run(old(Contents()), ops)
      ensures first_index == RunFirst(old(Contents()), old(first_index), ops)
    {
      hide MapOf;
      outs := [];
      for n := 0 to |ops|
        invariant Valid() && fresh(Repr - old(Repr)) && (Contents(), outs) == Run(old(Contents()), ops[..n])
        invariant first_index == RunFirst(old(Contents()), old(first_index), ops[..n])
      {
        assert ops[..n + 1][..n] == ops[..n];
        var out := Perform(ops[n]);
        outs := outs + [out];
      }
      assert ops[..|ops|] == ops;
    }

    method Perform(op: Operation) returns (out: Option<string>)
      requires Valid()
      modifies Repr
      ensures Valid() && fresh(Repr - old(Repr)) && (Contents(), out) == Step(old(Contents()), op)
      ensures first_index == FirstAfter(old(Contents()), old(first_index), op)
    {
      hide MapOf;
      out := None;
      match op
      case Assign(i, v) =>
        var rc := Insert(i, v);
      case Unset(i) =>
        var ae := Remove(i);
        if ae != null {
          out := ae.value;
        }
      case Get(i) =>
        out := Reference(i);
    }
  }
}
