/** Indexed arrays as array.c keeps them: a doubly linked ring around a dummy head, in order of the
    index, with a reference to the element used last from which searches start. */
module IndexedArray {
  import opened Numbers
  import opened SparseEntries
  import opened Wrappers

  class Element {
    var ind: int
    var value: Option<string>
    var next: Element?
    var prev: Element?

    constructor (indx: int, value: Option<string>)
      ensures ind == indx && this.value == value && next == null && prev == null
    {
      ind, this.value, next, prev := indx, value, null, null;
    }
  }

  /** The k-th element of the ring; -1 and |e| are the head. */
  ghost function Nth(head: Element, e: seq<Element>, k: int): Element {
    if 0 <= k < |e| then e[k] else head
  }

  /** The head and the elements e are linked both ways, in order, in a ring. */
  ghost predicate Ring(head: Element, e: seq<Element>)
    reads head, e
  {
    && head !in e
    && (forall j, k :: 0 <= j < k < |e| ==> e[j] != e[k])
    && forall j, k :: 0 <= k <= |e| && j == k - 1 ==>
         Nth(head, e, k).prev == Nth(head, e, j) && Nth(head, e, j).next == Nth(head, e, k)
  }

  ghost function Entries(e: seq<Element>): (s: seq<Entry>)
    reads e
    ensures |s| == |e| && forall k :: 0 <= k < |e| ==> s[k] == Entry(e[k].ind, e[k].value)
  {
    seq(|e|, k requires 0 <= k < |e| reads e => Entry(e[k].ind, e[k].value))
  }

  /** e with el put in at place k. */
  ghost function Splice(e: seq<Element>, k: nat, el: Element): seq<Element>
    requires k <= |e|
  {
    e[..k] + [el] + e[k..]
  }

  lemma NthOfSplice(head: Element, e: seq<Element>, k: nat, el: Element, j: int)
    requires k <= |e| && -1 <= j <= |e| + 1
    ensures Nth(head, Splice(e, k, el), j) == if j < k then Nth(head, e, j) else if j == k then el
            else Nth(head, e, j - 1)
  {
  }

  lemma NthOfRemoval(head: Element, e: seq<Element>, k: nat, j: int)
    requires k < |e| && -1 <= j <= |e|
    ensures Nth(head, e[..k] + e[k + 1..], j) == if j < k then Nth(head, e, j) else Nth(head, e, j + 1)
  {
  }

  lemma EntriesOfSplice(e: seq<Element>, k: nat, el: Element)
    requires k <= |e|
    ensures Entries(Splice(e, k, el)) == Entries(e)[..k] + [Entry(el.ind, el.value)] + Entries(e)[k..]
  {
  }

  lemma EntriesOfRemoval(e: seq<Element>, k: nat)
    requires k < |e|
    ensures Entries(e[..k] + e[k + 1..]) == Entries(e)[..k] + Entries(e)[k + 1..]
  {
  }

  lemma EntriesOfParts(e: seq<Element>, n: nat)
    requires n <= |e|
    ensures Entries(e[..n]) == Entries(e)[..n] && Entries(e[n..]) == Entries(e)[n..]
  {
  }

  /** Entries do not depend on the links. */
  twostate lemma SameEntries(e: seq<Element>)
    requires forall j :: 0 <= j < |e| ==>
               old(allocated(e[j])) && e[j].ind == old(e[j].ind) && e[j].value == old(e[j].value)
    ensures Entries(e) == old(Entries(e))
  {
  }

  twostate lemma RenumberedEntries(e: seq<Element>, new k: nat, new d: int)
    requires k <= |e|
    requires forall j :: 0 <= j < |e| ==>
               old(allocated(e[j])) && e[j].ind == old(e[j].ind) + (if j >= k then d else 0)
                   && e[j].value == old(e[j].value)
    ensures Entries(e) == old(Entries(e))[..k] + Renumber(old(Entries(e))[k..], d)
  {
    ghost var s := old(Entries(e));
    hide Entries;
    RenumberedFrom(Entries(e), s, k, d);
  }

  lemma RenumberedFrom(r: seq<Entry>, s: seq<Entry>, k: nat, d: int)
    requires k <= |r| == |s|
    requires forall j :: 0 <= j < |s| ==> r[j] == Entry(s[j].ind + (if j >= k then d else 0), s[j].value)
    ensures r == s[..k] + Renumber(s[k..], d)
  {
    var t := s[..k] + Renumber(s[k..], d);
    forall j | 0 <= j < |s| ensures r[j] == t[j] {
      assert j >= k ==> s[k..][j - k] == s[j] && t[j] == Renumber(s[k..], d)[j - k];
    }
  }

  /** The entries after a change to one element's value. */
  twostate lemma ReplacedEntries(e: seq<Element>, new k: nat)
    requires k < |e| && (forall j :: 0 <= j < |e| ==> old(allocated(e[j])))
    requires forall j :: 0 <= j < |e| ==> e[j].ind == old(e[j].ind) && (j != k ==> e[j].value == old(e[j].value))
    ensures Entries(e) == Updated(old(Entries(e)), k, e[k].value)
  {
    hide Entries;
    UpdateIs(Entries(e), old(Entries(e)), k);
  }

  lemma UpdateIs(r: seq<Entry>, s: seq<Entry>, k: nat)
    requires |r| == |s| && k < |s| && forall j :: 0 <= j < |s| && j != k ==> r[j] == s[j]
    ensures r == s[k := r[k]]
  {
  }

  lemma Distinct(head: Element, e: seq<Element>, j: nat, k: nat)
    requires Ring(head, e) && j < |e| && k < |e| && j != k
    ensures e[j] != e[k]
  {
  }

  class Array {
    var max_index: int
    var num_elements: int
    var head: Element
    var lastref: Element?
    ghost var elements: seq<Element>

    ghost var Repr: set<object>

    /** The entries, in order. */
    ghost function Contents(): (s: seq<Entry>)
      reads this, elements
      ensures |s| == |elements|
    {
      Entries(elements)
    }

    ghost predicate Owned()
      reads this
    {
      this in Repr && head in Repr && forall x :: x in elements ==> x in Repr
    }

    ghost predicate Valid()
      reads this, Repr
    {
      && Owned()
      && Ring(head, elements)
      && head.ind == -1
      && Ordered(Contents())
      && max_index == MaxIndex(Contents())
      && num_elements == |elements|
      && (lastref != null ==> lastref in elements)
    }

    constructor ()
      ensures Valid() && Contents() == [] && fresh(Repr)
    {
      max_index, num_elements, lastref := -1, 0, null;
      elements := [];
      head := new Element(-1, None);
      Repr := {this, head};
      new;
      head.prev, head.next := head, head;
    }

    /** The ring does not depend on indices and values. */
    twostate lemma SameRing()
      requires old(Ring(head, elements)) && head == old(head) && elements == old(elements)
      requires head.next == old(head.next) && head.prev == old(head.prev)
      requires forall j :: 0 <= j < |elements| ==>
                 elements[j].next == old(elements[j].next) && elements[j].prev == old(elements[j].prev)
      ensures Ring(head, elements)
    {
      forall k | 0 <= k <= |elements|
        ensures Nth(head, elements, k).prev == Nth(head, elements, k - 1)
                && Nth(head, elements, k - 1).next == Nth(head, elements, k)
      {
        assert old(Nth(head, elements, k).prev == Nth(head, elements, k - 1));
      }
    }

    /** ADD_BEFORE: el goes before ae, which is at place k. */
    method AddBefore(ae: Element, el: Element, ghost k: nat)
      requires Ring(head, elements) && k <= |elements| && ae == Nth(head, elements, k) && el != head && el !in elements
      modifies this`elements, ae`prev, Nth(head, elements, k - 1)`next, el`prev, el`next
      ensures Ring(head, elements) && elements == Splice(old(elements), k, el)
    {
      var p: Element := ae.prev;
      p.next := el;
      el.prev := p;
      ae.prev := el;
      el.next := ae;
      ghost var e := Splice(elements, k, el);
      forall j | 0 <= j <= |e| ensures Nth(head, e, j).prev == Nth(head, e, j - 1)
          && Nth(head, e, j - 1).next == Nth(head, e, j) {
        assert j < |e| ==> old(Nth(head, elements, j).prev == Nth(head, elements, j - 1));
        assert j > 0 ==> old(Nth(head, elements, j - 1).prev == Nth(head, elements, j - 2));
      }
      elements := e;
    }

    /** ADD_AFTER: el goes after ae, which is at place k. */
    method AddAfter(ae: Element, el: Element, ghost k: int)
      requires Ring(head, elements) && -1 <= k < |elements| && ae == Nth(head, elements, k) && el != head
               && el !in elements
      modifies this`elements, ae`next, Nth(head, elements, k + 1)`prev, el`prev, el`next
      ensures Ring(head, elements) && elements == Splice(old(elements), k + 1, el)
    {
      assert Nth(head, elements, k + 1 - 1) == ae;
      var n: Element := ae.next;
      n.prev := el;
      el.next := n;
      el.prev := ae;
      ae.next := el;
      ghost var e := Splice(elements, k + 1, el);
      forall j | 0 <= j <= |e| ensures Nth(head, e, j).prev == Nth(head, e, j - 1)
          && Nth(head, e, j - 1).next == Nth(head, e, j) {
        NthOfSplice(head, elements, k + 1, el, j);
        NthOfSplice(head, elements, k + 1, el, j - 1);
        assert j < |e| ==> old(Nth(head, elements, j).prev == Nth(head, elements, j - 1));
        assert j > 0 ==> old(Nth(head, elements, j - 1).prev == Nth(head, elements, j - 2));
      }
      elements := e;
    }

    /** Takes ae, which is at place k, out of the ring; ae's own links stay. */
    method Unlink(ae: Element, ghost k: nat)
      requires Ring(head, elements) && k < |elements| && ae == elements[k]
      modifies this`elements, Nth(head, elements, k - 1)`next, Nth(head, elements, k + 1)`prev
      ensures Ring(head, elements) && elements == old(elements)[..k] + old(elements)[k + 1..] && ae !in elements
    {
      assert Nth(head, elements, k + 1).prev == Nth(head, elements, k + 1 - 1);
      var n: Element, p: Element := ae.next, ae.prev;
      n.prev := p;
      p.next := n;
      ghost var e := elements[..k] + elements[k + 1..];
      forall j | 0 <= j <= |e| ensures Nth(head, e, j).prev == Nth(head, e, j - 1)
          && Nth(head, e, j - 1).next == Nth(head, e, j) {
        NthOfRemoval(head, elements, k, j);
        NthOfRemoval(head, elements, k, j - 1);
        assert old(Nth(head, elements, j).prev == Nth(head, elements, j - 1));
        assert old(Nth(head, elements, j + 1).prev == Nth(head, elements, j));
      }
      elements := e;
    }

    /** A new element, el, goes in before ae, which is at place k. */
    method HookBefore(ae: Element, el: Element, ghost k: nat)
      requires Valid() && k <= |elements| && ae == Nth(head, elements, k) && el !in Repr && el.ind >= 0
      requires k > 0 ==> Contents()[k - 1].ind < el.ind
      requires k < |elements| ==> Contents()[k].ind > el.ind
      modifies Repr, el
      ensures head == old(head) && Repr == old(Repr) + {el} && Owned() && Ring(head, elements) && head.ind == -1
      ensures Contents() == Put(old(Contents()), old(el.ind), old(el.value)) && |elements| == |old(elements)| + 1
      ensures max_index == old(max_index) && num_elements == old(num_elements) + 1 && lastref == el && el in elements
      ensures k < |old(elements)| ==> Valid()
    {
      hide Ring, Put, Ordered, MaxIndex, Entries;
      ghost var s, e := Contents(), elements;
      PutNew(s, k, el.ind, el.value);
      AddBefore(ae, el, k);
      SameEntries(e);
      EntriesOfSplice(e, k, el);
      Repr := Repr + {el};
      num_elements := num_elements + 1;
      lastref := el;
    }

    /** A new element, el, goes in after ae, which is at place k. */
    method HookAfter(ae: Element, el: Element, ghost k: int)
      requires Valid() && -1 <= k < |elements| && ae == Nth(head, elements, k) && el !in Repr && el.ind >= 0
      requires k >= 0 ==> Contents()[k].ind < el.ind
      requires k + 1 < |elements| ==> Contents()[k + 1].ind > el.ind
      modifies Repr, el
      ensures head == old(head) && Repr == old(Repr) + {el} && Owned() && Ring(head, elements) && head.ind == -1
      ensures Contents() == Put(old(Contents()), old(el.ind), old(el.value)) && |elements| == |old(elements)| + 1
      ensures max_index == old(max_index) && num_elements == old(num_elements) + 1 && lastref == el && el in elements
      ensures k + 1 < |old(elements)| ==> Valid()
    {
      hide Ring, Put, Ordered, MaxIndex, Entries;
      ghost var s, e := Contents(), elements;
      PutNew(s, k + 1, el.ind, el.value);
      AddAfter(ae, el, k);
      SameEntries(e);
      EntriesOfSplice(e, k + 1, el);
      Repr := Repr + {el};
      num_elements := num_elements + 1;
      lastref := el;
    }

    /** Gives ae, which is at place k, the value v. */
    method Replace(ae: Element, v: Option<string>, ghost k: nat)
      requires Valid() && k < |elements| && ae == elements[k]
      modifies Repr
      ensures Valid() && Repr == old(Repr) && lastref == ae && Contents() == Put(old(Contents()), old(ae.ind), v)
    {
      hide Ring, Put, Ordered, MaxIndex, Entries, Updated;
      forall j | 0 <= j < |elements| && j != k ensures elements[j] != ae {
        Distinct(head, elements, j, k);
      }
      PutOld(Contents(), k, v);
      ae.value := v;
      lastref := ae;
      SameRing();
      ReplacedEntries(elements, k);
    }

    /** LASTREF: the element used last, or the first. */
    method LastUsed() returns (start: Element, ghost k: nat)
      requires Valid()
      ensures k <= |elements| && start == Nth(head, elements, k) && (k == |elements| ==> k == 0)
      ensures start == if lastref != null then lastref else Nth(head, elements, 0)
    {
      if lastref != null {
        start := lastref;
        k :| 0 <= k < |elements| && elements[k] == lastref;
      } else {
        assert Nth(head, elements, 0 - 1).next == Nth(head, elements, 0);
        start, k := head.next, 0;
      }
    }

    /** Where to look for index i, and which way to go: from the element used last, or from the first one
        when i seems nearer to it. No element on the other side has index i. */
    method SearchStart(i: int) returns (start: Element, direction: int, ghost k: nat)
      requires Valid()
      ensures k <= |elements| && start == Nth(head, elements, k) && (k == |elements| ==> k == 0)
      ensures direction == 1 || direction == -1
      ensures direction == 1 ==> k == 0 || Contents()[k - 1].ind < i
      ensures direction == -1 && k < |elements| ==> Contents()[k].ind > i
      ensures elements == [] && i >= -1 ==> direction == 1
      ensures direction == 1 && elements != [] && i >= Contents()[0].ind ==> start.ind <= i
    {
      hide Ordered, MaxIndex;
      start, k := LastUsed();
      if k < |elements| {
        OrderedAt(Contents(), k);
      }
      var startind := start.ind;
      if i < DivC(startind, 2) {
        assert Nth(head, elements, 0 - 1).next == Nth(head, elements, 0);
        start, direction, k := head.next, 1, 0;
      } else if i >= startind {
        direction := 1;
      } else {
        direction := -1;
      }
    }

    /** Hooks a new element, el, onto the end. */
    method HookLast(el: Element)
      requires Valid() && el !in Repr && el.ind > max_index && el.ind >= 0
      modifies Repr, el
      ensures Valid() && Repr == old(Repr) + {el} && Contents() == Put(old(Contents()), old(el.ind), old(el.value))
    {
      hide Ring, Put, Ordered;
      ghost var s := Contents();
      var i := el.ind;
      FirstFacts();
      PutNew(s, |s|, i, el.value);
      HookBefore(head, el, |elements|);
      max_index := i;
      assert Contents() == Put(s, i, old(el.value));
    }

    /** Sets element i to v. Fails only for index -1 of an empty array. */
    method Insert(i: int, v: Option<string>) returns (rc: int)
      requires Valid() && (i >= 0 || (i == -1 && elements == []))
      modifies Repr
      ensures Valid() && fresh(Repr - old(Repr))
      ensures rc == if i >= 0 then 0 else -1
      ensures Contents() == if i >= 0 then Put(old(Contents()), i, v) else old(Contents())
    {
      hide Ring, Put, Ordered;
      ghost var s := Contents();
      FirstFacts();
      var el := new Element(i, v);
      if i > max_index {
        HookLast(el);
        return 0;
      } else if i < head.next.ind {
        PutNew(s, 0, i, v);
        HookAfter(head, el, -1);
        return 0;
      }
      rc := InsertBySearch(i, v, el);
    }

    /** The search of array_insert, for an index that is neither the largest nor the smallest. */
    method InsertBySearch(i: int, v: Option<string>, el: Element) returns (rc: int)
      requires Valid() && el !in Repr && el.ind == i && el.value == v
      requires i >= -1 && i <= max_index && (elements == [] ==> i == -1) && (elements != [] ==> i >= Contents()[0].ind)
      modifies Repr, el
      ensures Valid() && Repr <= old(Repr) + {el}
      ensures rc == if i >= 0 then 0 else -1
      ensures Contents() == if i >= 0 then Put(old(Contents()), i, v) else old(Contents())
    {
      hide Ring, Put, Ordered, MaxIndex;
      var ae, direction, k := FindPlace(i);
      if ae == head {
        lastref := null;
        assert Contents() == old(Contents());
        rc := -1;
      } else if ae.ind == i {
        Replace(ae, v, k);
        rc := 0;
      } else if direction == 1 {
        HookBefore(ae, el, k);
        rc := 0;
      } else {
        HookAfter(ae, el, k);
        rc := 0;
      }
    }

    /** Where that search stops: at index i, or at the first element past it in the direction taken. */
    method FindPlace(i: int) returns (ae: Element, direction: int, ghost k: int)
      requires Valid()
      requires i >= -1 && i <= max_index && (elements == [] ==> i == -1) && (elements != [] ==> i >= Contents()[0].ind)
      ensures -1 <= k <= |elements| && ae == Nth(head, elements, k) && (direction == 1 || direction == -1)
      ensures ae == head <==> i == -1
      ensures ae != head ==> 0 <= k < |elements|
      ensures ae != head && ae.ind != i && direction == 1 ==> ae.ind > i && (k > 0 ==> Contents()[k - 1].ind < i)
      ensures ae != head && ae.ind != i && direction == -1
              ==> ae.ind < i && k + 1 < |elements| && Contents()[k + 1].ind > i
    {
      hide Ring, Ordered, MaxIndex, Entries;
      ghost var s := Contents();
      FirstFacts();
      ghost var place;
      ae, direction, place := SearchStart(i);
      k := place;
      if k < |s| {
        OrderedAt(s, k);
        OrderedAt(s, 0);
      }
      while ae != head && ae.ind != i && !(direction == 1 && ae.ind > i) && !(direction == -1 && ae.ind < i)
        invariant -1 <= k <= |s| && ae == Nth(head, elements, k)
        invariant direction == 1 ==> k == 0 || (0 < k <= |s| && s[k - 1].ind < i)
        invariant direction == -1 ==> k == |s| - 1 || (k + 1 < |s| && s[k + 1].ind > i)
        decreases if direction == 1 then |elements| - k else k + 1
      {
        Neighbours(k);
        ae := if direction == 1 then ae.next else ae.prev;
        k := k + direction;
      }
    }

    lemma FirstFacts()
      requires Valid()
      ensures head.next != null && head.next == Nth(head, elements, 0) && head !in elements
      ensures head.next.ind == if elements == [] then -1 else Contents()[0].ind
      ensures elements != [] ==> max_index == Contents()[|elements| - 1].ind
    {
      assert Nth(head, elements, 0 - 1).next == Nth(head, elements, 0);
    }

    lemma Neighbours(k: nat)
      requires Ring(head, elements) && k < |elements|
      ensures elements[k].next == Nth(head, elements, k + 1) && elements[k].prev == Nth(head, elements, k - 1)
    {
      assert Nth(head, elements, k + 1 - 1).next == Nth(head, elements, k + 1);
      assert Nth(head, elements, k).prev == Nth(head, elements, k - 1);
    }

    /** The search of array_remove and array_reference, for an index within the range of the array: whether
        there is an element with index i, which one, or else the element that is closest to it. */
    method Search(i: int) returns (ae: Element, start: Element, found: bool, ghost k: int)
      requires Valid() && elements != [] && Contents()[0].ind <= i <= max_index
      ensures start in elements
      ensures found ==> 0 <= k < |elements| && ae == elements[k] && ae.ind == i
      ensures !found ==> forall j :: 0 <= j < |elements| ==> Contents()[j].ind != i
    {
      hide Ring, Ordered, MaxIndex;
      ghost var s := Contents();
      FirstFacts();
      var direction;
      ghost var place;
      start, direction, place := SearchStart(i);
      ae, k := start, place;
      while ae != head
        invariant start in elements
        invariant 0 <= k < |s| && ae == elements[k]
        invariant direction == 1 || direction == -1
        invariant direction == 1 ==> ae.ind <= i
        invariant direction == -1 ==> ae.ind >= i
        decreases if direction == 1 then |elements| - k else k
      {
        if ae.ind == i {
          found := true;
          return;
        }
        Neighbours(k);
        ae := if direction == 1 then ae.next else ae.prev;
        k := k + direction;
        if direction == 1 && ae.ind > i {
          AbsentBetween(s, k, i);
          start := ae;
          break;
        } else if direction == -1 && ae.ind < i {
          AbsentBetween(s, k + 1, i);
          start := ae;
          break;
        }
      }
      found := false;
    }

    /** The value of element i, or None. */
    method Reference(i: int) returns (v: Option<string>)
      requires Valid()
      modifies this`lastref
      ensures Valid() && Contents() == old(Contents()) && v == Find(Contents(), i)
    {
      hide Ring, Ordered, Find, Entries, ToMap;
      FirstFacts();
      ghost var s := Contents();
      if num_elements == 0 || i > max_index || i < head.next.ind {
        OutOfRange(s, i);
        FindAbsent(s, i);
        return None;
      }
      var ae, start, found, k := Search(i);
      assert Contents() == s;
      if found {
        FindAt(s, k);
        lastref := ae;
        v := ae.value;
      } else {
        FindAbsent(s, i);
        lastref := start;
        v := None;
      }
      assert Contents() == s;
    }

    /** Takes element i out and returns it, or null. */
    method Remove(i: int) returns (r: Element?)
      requires Valid()
      modifies Repr
      ensures Valid() && Repr <= old(Repr) && Contents() == Drop(old(Contents()), i)
      ensures r != null <==> i in ToMap(old(Contents()))
      ensures r != null ==> r !in Repr && r.ind == i && r.value == Find(old(Contents()), i)
    {
      hide Ring, Ordered, Find, Drop, ToMap;
      FirstFacts();
      ghost var s, e := Contents(), elements;
      if num_elements == 0 || i > max_index || i < head.next.ind {
        OutOfRange(s, i);
        FindAbsent(s, i);
        return null;
      }
      var ae, start, found, k := Search(i);
      assert Contents() == s;
      if !found {
        FindAbsent(s, i);
        return null;
      }
      FindAt(s, k);
      RemoveAt(ae, k);
      r := ae;
    }

    /** Takes ae, which is at place k, out of the array. */
    method Detach(ae: Element, ghost k: nat)
      requires Valid() && k < |elements| && ae == elements[k]
      modifies Repr
      ensures head == old(head) && Repr == old(Repr) - {ae} && Owned() && Ring(head, elements) && head.ind == -1
      ensures elements == old(elements)[..k] + old(elements)[k + 1..]
              && Contents() == Drop(old(Contents()), old(ae.ind))
      ensures ae.ind == old(ae.ind) && ae.value == old(ae.value)
      ensures ae.next == Nth(head, old(elements), k + 1) && ae.prev == Nth(head, old(elements), k - 1)
      ensures max_index == old(max_index) && num_elements == old(num_elements) - 1 && lastref == old(lastref)
    {
      hide Ring, Ordered, Drop, MaxIndex;
      ghost var s, e := Contents(), elements;
      FirstFacts();
      Neighbours(k);
      DropHere(s, k);
      Unlink(ae, k);
      SameEntries(e);
      EntriesOfRemoval(e, k);
      Repr := Repr - {ae};
      num_elements := num_elements - 1;
    }

    /** What array_remove does with the element it has found, which is at place k. */
    method RemoveAt(ae: Element, ghost k: nat)
      requires Valid() && k < |elements| && ae == elements[k]
      modifies Repr
      ensures Valid() && Repr == old(Repr) - {ae} && Contents() == Drop(old(Contents()), old(ae.ind))
      ensures ae.ind == old(ae.ind) && ae.value == old(ae.value)
    {
      hide Ring, Ordered, Drop, MaxIndex;
      ghost var s := Contents();
      FirstFacts();
      DropHere(s, k);
      LastEntry(s, k);
      Detach(ae, k);
      assert k > 0 ==> ae.prev == elements[k - 1] && Contents()[k - 1] == s[k - 1];
      assert k < |elements| ==> ae.next == elements[k];
      if ae.ind == max_index {
        max_index := ae.prev.ind;
      }
      if ae.next != head {
        lastref := ae.next;
      } else if ae.prev != head {
        lastref := ae.prev;
      } else {
        lastref := null;
      }
      assert Contents() == Drop(s, ae.ind);
    }

    /** Adds d to the index of ae, which is at place k, and of every element after it. */
    method RenumberFrom(first: Element, ghost k: nat, d: int)
      requires Owned() && Ring(head, elements) && k <= |elements| && first == Nth(head, elements, k)
      modifies (set x: Element | x in Repr)`ind
      ensures Ring(head, elements) && head.ind == old(head.ind)
      ensures forall j :: 0 <= j < |elements| ==> elements[j].ind == old(elements[j].ind) + if j >= k then d else 0
    {
      var ae := first;
      ghost var i := k;
      while ae != head
        invariant k <= i <= |elements| && ae == Nth(head, elements, i)
        invariant forall j :: 0 <= j < |elements| ==>
                    elements[j].ind == old(elements[j].ind) + if k <= j < i then d else 0
        invariant head.ind == old(head.ind)
        decreases |elements| - i
      {
        Neighbours(i);
        ae.ind := ae.ind + d;
        ae := ae.next;
        i := i + 1;
      }
      SameRing();
    }

    /** Cuts the first n elements off, as a list of their own that ends with null. */
    method CutFirst(ae: Element, ghost n: nat) returns (ret: Element)
      requires Ring(head, elements) && 0 < n < |elements| && ae == elements[n]
      modifies this`elements, Nth(head, elements, n - 1)`next, head`next, ae`prev
      ensures Ring(head, elements) && elements == old(elements)[n..]
      ensures ret == old(elements)[0] && Chain(old(elements), n)
    {
      Neighbours(0);
      Neighbours(n);
      assert Nth(head, elements, 0 - 1).next == Nth(head, elements, 0);
      ret := head.next;
      var p: Element := ae.prev;
      p.next := null;
      head.next := ae;
      ae.prev := head;
      ghost var e := elements[n..];
      forall j | 0 <= j <= |e| ensures Nth(head, e, j).prev == Nth(head, e, j - 1)
          && Nth(head, e, j - 1).next == Nth(head, e, j) {
        assert old(Nth(head, elements, n + j).prev == Nth(head, elements, n + j - 1));
      }
      forall j | 0 <= j < n - 1 ensures elements[j].next == elements[j + 1] {
        assert old(Nth(head, elements, j + 1).prev == Nth(head, elements, j));
      }
      elements := e;
    }

    /** Ends the list of all the elements with null, and leaves the ring empty. */
    method CutAll() returns (ret: Element)
      requires Ring(head, elements) && elements != []
      modifies this`elements, elements`next, head`next, head`prev
      ensures Ring(head, elements) && elements == []
      ensures ret == old(elements)[0] && Chain(old(elements), |old(elements)|)
    {
      Neighbours(0);
      assert Nth(head, elements, 0 - 1).next == Nth(head, elements, 0);
      ret := head.next;
      var ae := ret;
      ghost var k := 0;
      while ae.next != head
        modifies {}
        invariant 0 <= k < |elements| && ae == elements[k]
        decreases |elements| - k
      {
        Neighbours(k);
        ae := ae.next;
        k := k + 1;
      }
      forall j | 0 <= j < |elements| ensures elements[j].next == Nth(head, elements, j + 1) {
        Neighbours(j);
      }
      ae.next := null;
      head.next, head.prev := head, head;
      elements := [];
    }

    /** CutFirst, with what the array owns and holds afterwards. */
    method CutOff(ae: Element, n: int) returns (ret: Element)
      requires Valid() && 0 < n < |elements| && ae == elements[n]
      modifies Repr
      ensures Owned() && Ring(head, elements) && head == old(head) && head.ind == -1 && elements == old(elements)[n..]
      ensures Repr <= old(Repr) && Contents() == old(Contents())[n..]
      ensures ret == old(elements)[0] && Chain(old(elements), n) && forall k :: 0 <= k < n ==> old(elements)[k] !in Repr
      ensures forall x :: x in old(elements) ==> x.ind == old(x.ind) && x.value == old(x.value)
      ensures num_elements == old(num_elements) && lastref == old(lastref)
    {
      hide Ring, Ordered, MaxIndex;
      ghost var kept := elements[n..];
      EntriesOfParts(elements, n);
      ghost var owned := Remaining(n);
      ret := CutFirst(ae, n);
      SameEntries(kept);
      Repr := owned;
    }

    /** The general case of array_shift: ae, which is at place n, becomes the first element. */
    method ShiftSome(ae: Element, n: int) returns (ret: Element)
      requires Valid() && lastref == null && 0 < n < |elements| && ae == elements[n]
      modifies Repr
      ensures Valid() && Repr <= old(Repr) && Contents() == ShiftLeft(old(Contents()), n)
      ensures ret == old(elements)[0] && Chain(old(elements), n)
      ensures forall k :: 0 <= k < n ==> old(elements)[k] !in Repr && old(elements)[k].ind == old(elements[k].ind)
                                         && old(elements)[k].value == old(elements[k].value)
    {
      hide Ring, Ordered, ShiftLeft, MaxIndex, Renumber, Entries;
      ShiftLeftFacts(Contents(), n);
      ret := CutOff(ae, n);
      RenumberAll(ae, -n);
      num_elements := num_elements - n;
      max_index := LastIndex();
    }

    method LastIndex() returns (m: int)
      requires Ring(head, elements) && elements != []
      ensures m == MaxIndex(Contents())
    {
      hide Ring;
      LastNeighbour();
      m := head.prev.ind;
    }

    /** What the array owns without its first n elements. */
    lemma Remaining(n: nat) returns (owned: set<object>)
      requires Valid() && n <= |elements|
      ensures owned <= Repr && this in owned && head in owned && forall k :: 0 <= k < n ==> elements[k] !in owned
      ensures forall x :: x in elements[n..] ==> x in owned
    {
      hide Ordered, MaxIndex, Entries;
      owned := {this, head} + set x | x in elements[n..];
    }

    method Renumbered(ae: Element, ghost k: nat, d: int)
      requires Owned() && Ring(head, elements) && k <= |elements| && ae == Nth(head, elements, k)
      modifies Repr
      ensures Ring(head, elements) && head.ind == old(head.ind)
      ensures Contents() == old(Contents())[..k] + Renumber(old(Contents())[k..], d)
      ensures head == old(head) && elements == old(elements) && Repr == old(Repr) && Owned()
      ensures num_elements == old(num_elements) && lastref == old(lastref) && max_index == old(max_index)
    {
      hide Ring, Renumber, Entries;
      RenumberFrom(ae, k, d);
      RenumberedEntries(elements, k, d);
    }

    method RenumberAll(ae: Element, d: int)
      requires Owned() && Ring(head, elements) && ae == Nth(head, elements, 0)
      modifies Repr
      ensures Ring(head, elements) && head.ind == old(head.ind)
      ensures Contents() == Renumber(old(Contents()), d)
      ensures head == old(head) && elements == old(elements) && Repr == old(Repr) && Owned()
      ensures num_elements == old(num_elements) && lastref == old(lastref) && max_index == old(max_index)
    {
      hide Ring, Renumber, Entries;
      RenumberSplit(Contents(), 0, d);
      Renumbered(ae, 0, d);
    }

    method RenumberRest(ae: Element, d: int, ghost x: Entry, ghost s: seq<Entry>)
      requires Owned() && Ring(head, elements) && |elements| > 0 && ae == Nth(head, elements, 1)
               && Contents() == [x] + s
      modifies Repr
      ensures Ring(head, elements) && head.ind == old(head.ind)
      ensures Contents() == [x] + Renumber(s, d)
      ensures head == old(head) && elements == old(elements) && Repr == old(Repr) && Owned()
      ensures num_elements == old(num_elements) && lastref == old(lastref) && max_index == old(max_index)
    {
      hide Ring, Renumber, Entries;
      assert ([x] + s)[1..] == s;
      RenumberSplit(Contents(), 1, d);
      Renumbered(ae, 1, d);
    }

    /** The easy case of array_shift. */
    method ShiftAll() returns (ret: Element)
      requires Valid() && lastref == null && elements != []
      modifies Repr
      ensures Valid() && Repr <= old(Repr) && Contents() == [] && elements == []
      ensures ret == old(elements)[0] && Chain(old(elements), |old(elements)|)
      ensures forall k :: 0 <= k < |old(elements)| ==>
                old(elements)[k] !in Repr && old(elements)[k].ind == old(elements[k].ind)
                && old(elements)[k].value == old(elements[k].value)
    {
      hide Ring;
      FirstFacts();
      ret := CutAll();
      max_index, num_elements := -1, 0;
      Repr := {this, head};
    }

    /** The element n places on, or the head. */
    method Skip(n: int) returns (ae: Element)
      requires Ring(head, elements) && n > 0
      ensures ae == Nth(head, elements, if n < |elements| then n else |elements|)
    {
      var i := 0;
      assert Nth(head, elements, 0 - 1).next == Nth(head, elements, 0);
      ae := head.next;
      while ae != head && i < n
        invariant 0 <= i <= |elements| && i <= n && ae == Nth(head, elements, i)
        decreases n - i
      {
        Neighbours(i);
        ae := ae.next;
        i := i + 1;
      }
    }

    lemma LastNeighbour()
      requires Ring(head, elements) && elements != []
      ensures head.prev == elements[|elements| - 1]
    {
      assert Nth(head, elements, |elements|).prev == Nth(head, elements, |elements| - 1);
    }

    /** array_shift: drops the first n elements and takes n from the index of the others. Without `dispose`
        the dropped elements are returned as a list of their own. */
    method Shift(n: int, dispose: bool) returns (ret: Element?)
      requires Valid()
      modifies Repr
      ensures Valid() && Repr <= old(Repr)
      ensures Contents() == if n > 0 then ShiftLeft(old(Contents()), n) else old(Contents())
      ensures ret == null <==> dispose || n <= 0 || old(elements) == []
      ensures ret != null ==>
                var dropped, m := old(elements), if n < |old(elements)| then n else |old(elements)|;
                && ret == dropped[0] && Chain(dropped, m)
                && forall k :: 0 <= k < m ==> dropped[k] !in Repr && dropped[k].ind == old(elements[k].ind)
                                              && dropped[k].value == old(elements[k].value)
    {
      hide Ring, Ordered, Entries, Chain;
      if num_elements == 0 || n <= 0 {
        return null;
      }
      FirstFacts();
      lastref := null;
      assert Contents() == old(Contents());
      var ae := Skip(n);
      if ae == head {
        ret := ShiftAll();
      } else {
        ret := ShiftSome(ae, n);
      }
      if dispose {
        ret := null;
      }
    }

    /** array_rshift: adds n to every index, and makes v the new element 0 unless it is null. */
    method RightShift(n: int, v: Option<string>) returns (count: int)
      requires Valid() && max_index + n <= INTMAX_MAX
      modifies Repr
      ensures Valid() && fresh(Repr - old(Repr)) && count == num_elements
      ensures Contents() == if n <= 0 then old(Contents()) else ShiftRight(old(Contents()), n, v)
    {
      hide Ring, Ordered, MaxIndex, Entries, ShiftRight, Renumber;
      ghost var s := Contents();
      if n > 0 {
        ShiftRightOrdered(s, n, v);
      }
      if num_elements == 0 && v.None? {
        return 0;
      } else if n <= 0 {
        return num_elements;
      }
      FirstFacts();
      var ae: Element := head.next;
      if v.Some? {
        AddZero(ae, v);
        if num_elements == 1 {
          max_index := 0;
          ShiftRightIntoEmpty(n, v);
          assert s == [];
          return 1;
        }
        RenumberRest(ae, n, Entry(0, v), s);
      } else {
        RenumberAll(ae, n);
      }
      max_index := LastIndex();
      lastref := null;
      count := num_elements;
    }

    /** A new element 0 goes in before ae, the first element; the others are yet to be renumbered. */
    method AddZero(ae: Element, v: Option<string>)
      requires Valid() && ae == Nth(head, elements, 0)
      modifies Repr
      ensures Owned() && Ring(head, elements) && head == old(head) && head.ind == -1 && fresh(Repr - old(Repr))
      ensures Contents() == [Entry(0, v)] + old(Contents()) && num_elements == old(num_elements) + 1
      ensures lastref == old(lastref) && max_index == old(max_index) && ae == Nth(head, elements, 1)
    {
      hide Ring, Ordered, MaxIndex;
      ghost var e := elements;
      var el := new Element(0, v);
      AddBefore(ae, el, 0);
      SameEntries(e);
      EntriesOfSplice(e, 0, el);
      Repr := Repr + {el};
      num_elements := num_elements + 1;
    }

    /** array_push and then array_pop: the array is as it was. */
    method PushAndPop(v: string)
      requires Valid() && max_index + 1 <= INTMAX_MAX
      modifies Repr
      ensures Valid() && fresh(Repr - old(Repr)) && Contents() == old(Contents())
      ensures max_index == old(max_index) && num_elements == old(num_elements)
    {
      hide Ring, Ordered, Entries, ShiftRight, ShiftLeft, MaxIndex;
      ghost var s := Contents();
      ShiftInverse(s, v);
      var count := RightShift(1, Some(v));
      var popped := Shift(1, true);
    }

    /** array_copy: a new array with the same entries. */
    method Copy() returns (a: Array)
      requires Valid()
      ensures a.Valid() && fresh(a.Repr) && a.Contents() == Contents()
    {
      hide Ring, Ordered, MaxIndex, Entries;
      a := new Array();
      a.max_index, a.num_elements := max_index, num_elements;
      assert a.Contents() == [];
      CopyElements(a);
    }

    /** The loop of array_copy, for an array a without elements. */
    method CopyElements(a: Array)
      requires Valid() && a != this && Repr !! a.Repr && a.Building([])
      modifies a.Repr
      ensures a.Building(Contents()) && fresh(a.Repr - old(a.Repr))
      ensures a.max_index == old(a.max_index) && a.num_elements == old(a.num_elements)
    {
      hide Ring, Ordered, MaxIndex, Array.Building, Entries;
      FirstFacts();
      ghost var s := Contents();
      assert s[..0] == [];
      ghost var k := 0;
      var ae: Element := head.next;
      while ae != head
        invariant 0 <= k <= |s| && ae == Nth(head, elements, k)
        invariant fresh(a.Repr - old(a.Repr)) && a.Building(s[..k])
        invariant a.max_index == old(a.max_index) && a.num_elements == old(a.num_elements)
        decreases |s| - k
      {
        Neighbours(k);
        assert s[k] == Entry(ae.ind, ae.value) && s[..k + 1] == s[..k] + [s[k]];
        a.AppendCopy(ae.ind, ae.value, ae == if lastref != null then lastref else head.next, s[..k]);
        ae := ae.next;
        k := k + 1;
      }
      assert s[..k] == s;
    }

    /** The ring holds the entries t; the counters are yet to agree with them. */
    ghost predicate Building(t: seq<Entry>)
      reads this, Repr
    {
      && Owned() && Ring(head, elements) && head.ind == -1 && Contents() == t
          && (lastref != null ==> lastref in elements)
    }

    /** Adds an element at the end of the ring, and makes it the last one used if `used` says so. */
    method AppendCopy(ind: int, value: Option<string>, used: bool, ghost t: seq<Entry>)
      requires Building(t)
      modifies Repr
      ensures fresh(Repr - old(Repr)) && Building(t + [Entry(ind, value)])
      ensures max_index == old(max_index) && num_elements == old(num_elements)
    {
      hide Ring, Entries;
      var el := new Element(ind, value);
      Append(el);
      if used {
        lastref := el;
      }
    }

    /** Adds el at the end of the ring. */
    method Append(el: Element)
      requires Owned() && Ring(head, elements) && head.ind == -1 && el !in Repr
      modifies Repr, el
      ensures Owned() && Ring(head, elements) && head == old(head) && head.ind == -1 && Repr == old(Repr) + {el}
      ensures Contents() == old(Contents()) + [Entry(el.ind, el.value)] && elements == old(elements) + [el]
      ensures el.ind == old(el.ind) && el.value == old(el.value)
      ensures max_index == old(max_index) && num_elements == old(num_elements) && lastref == old(lastref)
    {
      hide Ring;
      ghost var e := elements;
      AddBefore(head, el, |elements|);
      SameEntries(e);
      EntriesOfSplice(e, |e|, el);
      Repr := Repr + {el};
    }

    /** array_to_word_list: the values in order, collected backwards and then reversed. */
    method ToWordList() returns (list: seq<Option<string>>)
      requires Valid()
      ensures list == Values(Contents())
    {
      hide Ring, Ordered, MaxIndex;
      FirstFacts();
      list := [];
      ghost var k, s := 0, Contents();
      var ae: Element := head.next;
      while ae != head
        invariant 0 <= k <= |elements| && ae == Nth(head, elements, k) && list == Reverse(Values(s[..k]))
        decreases |elements| - k
      {
        Neighbours(k);
        ReverseSnoc(Values(s[..k]), s[k].value);
        assert Values(s[..k + 1]) == Values(s[..k]) + [s[k].value];
        list := [ae.value] + list;
        ae := ae.next;
        k := k + 1;
      }
      assert s[..k] == s;
      ReverseTwice(Values(s));
      list := Reverse(list);
    }

    /** array_assign_list: assigns the words to elements 0, 1, ... */
    method AssignList(list: seq<string>)
      requires Valid()
      modifies Repr
      ensures Valid() && fresh(Repr - old(Repr)) && Contents() == PutAll(old(Contents()), 0, list)
    {
      hide Ring, Ordered, Put;
      for i := 0 to |list|
        invariant Valid() && fresh(Repr - old(Repr))
        invariant PutAll(Contents(), i, list[i..]) == PutAll(old(Contents()), 0, list)
      {
        var rc := Insert(i, Some(list[i]));
        assert list[i..][1..] == list[i + 1..];
      }
    }

    /** Any run of operations does what it does on a map. */
    method Replay(ops: seq<Operation>) returns (outs: seq<Option<string>>)
      requires Valid()
      modifies Repr
      ensures Valid() && fresh(Repr - old(Repr))
      ensures (ToMap(Contents()), outs) == Run(ToMap(old(Contents())), ops)
    {
      hide Ring, Ordered, Put, Drop, ToMap;
      outs := [];
      for i := 0 to |ops|
        invariant Valid() && fresh(Repr - old(Repr))
        invariant (ToMap(Contents()), outs) == Run(ToMap(old(Contents())), ops[..i])
      {
        assert ops[..i + 1][..i] == ops[..i];
        var out := Perform(ops[i]);
        outs := outs + [out];
      }
      assert ops[..|ops|] == ops;
    }

    method Perform(op: Operation) returns (out: Option<string>)
      requires Valid()
      modifies Repr
      ensures Valid() && fresh(Repr - old(Repr))
      ensures (ToMap(Contents()), out) == Step(ToMap(old(Contents())), op)
    {
      hide Ring, Ordered, Put, Drop, ToMap;
      out := None;
      match op
      case Assign(i, v) =>
        PutIsUpdate(Contents(), i, v);
        var rc := Insert(i, v);
      case Unset(i) =>
        DropIsRemoval(Contents(), i);
        var r := Remove(i);
        if r != null {
          out := r.value;
        }
      case Get(i) =>
        out := Reference(i);
    }
  }

  /** The first n elements of e are a list that ends with null. */
  ghost predicate Chain(e: seq<Element>, n: nat)
    requires n <= |e|
    reads e
  {
    && (forall j, k :: 0 <= j && k == j + 1 < n ==> e[j].next == e[k])
    && (n > 0 ==> e[n - 1].next == null)
  }

  /** array_from_word_list */
  method FromWordList(list: seq<string>) returns (a: Array?)
    ensures a == null <==> list == []
    ensures a != null ==> a.Valid() && fresh(a.Repr) && a.Contents() == FromList(list)
  {
    if list == [] {
      return null;
    }
    a := new Array();
    a.AssignList(list);
    assert FromList(list[..0]) == [] && list[0..] == list;
    PutAllFrom(list, 0);
  }
}
