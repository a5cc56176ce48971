/** Hash tables that grow (hashlib.c): an array of chains of items, linked at the front and moved in place
    when the array is enlarged. */
module HashTable {
  import opened Numbers
  import opened Wrappers

  // ---------- hashing ----------

  /** Bitwise and, and exclusive or. */
  function BitAnd(a: nat, b: nat): (r: nat)
    ensures r <= b
  {
    if a == 0 || b == 0 then 0
    else 2 * BitAnd(a / 2, b / 2) + if a % 2 == 1 && b % 2 == 1 then 1 else 0
  }

  function BitXor(a: nat, b: nat): nat {
    if a == 0 then b else if b == 0 then a
    else 2 * BitXor(a / 2, b / 2) + if a % 2 != b % 2 then 1 else 0
  }

  const FNV_OFFSET := 2166136261
  const FNV_PRIME := 16777619

  /** An unsigned int. */
  function U32(x: int): (r: nat)
    ensures r < TWO_TO_THE_32
  {
    x % TWO_TO_THE_32
  }

  /** A char as an operand of `^`: a byte above 127 is negative, and its sign is extended. */
  function CharBits(c: char): nat {
    var b := c as nat % 256;
    if b < 128 then b else U32(b - 256)
  }

  function HashStep(i: nat, c: char): nat {
    BitXor(U32(i * FNV_PRIME), CharBits(c))
  }

  function HashFrom(i: nat, s: string): nat
    decreases |s|
  {
    if s == "" then i else HashFrom(HashStep(i, s[0]), s[1..])
  }

  function Hash(s: string): nat {
    HashFrom(FNV_OFFSET, s)
  }

  /** hash_string; the multiplication by the prime is done with shifts. */
  method HashString(s: string) returns (i: nat)
    ensures i == Hash(s)
  {
    i := FNV_OFFSET;
    for k := 0 to |s|
      invariant HashFrom(i, s[k..]) == Hash(s)
    {
      ShiftsMultiply(i);
      i := U32(i + U32(U32(U32(U32(U32(i * 2) + U32(i * 16)) + U32(i * 128)) + U32(i * 256)) + U32(i * 16777216)));
      i := BitXor(i, CharBits(s[k]));
      assert s[k..][1..] == s[k + 1..];
    }
  }

  lemma ShiftsMultiply(i: nat)
    ensures U32(i + U32(U32(U32(U32(U32(i * 2) + U32(i * 16)) + U32(i * 128)) + U32(i * 256)) + U32(i * 16777216)))
         == U32(i * FNV_PRIME)
  {
    hide U32;
    U32Sum(i * 2, i * 16);
    U32Sum(i * 18, i * 128);
    U32Sum(i * 146, i * 256);
    U32Sum(i * 402, i * 16777216);
    U32Sum(i * 16777618, i);
  }

  lemma U32Sum(a: nat, b: nat)
    ensures U32(U32(a) + U32(b)) == U32(a + b) && U32(b + U32(a)) == U32(a + b)
  {
    var m := TWO_TO_THE_32;
    ModMultiple(a % m + b, a / m, m);
    ModMultiple(a % m + b % m, b / m, m);
    assert a == (a / m) * m + a % m && b == (b / m) * m + b % m;
  }

  /** HASH_BUCKET, for a table of n buckets. */
  function BucketOf(hash: nat, n: nat): (b: nat)
    requires n > 0
    ensures b < n
  {
    BitAnd(hash, n - 1)
  }

  /** The i-th bit of x. */
  predicate Bit(x: nat, i: nat)
    decreases i
  {
    if i == 0 then x % 2 == 1 else Bit(x / 2, i - 1)
  }

  lemma {:induction false} NoBits(i: nat)
    ensures !Bit(0, i)
    decreases i
  {
    if i > 0 {
      NoBits(i - 1);
    }
  }

  /** The two operations, bit by bit. */
  lemma {:induction false} BitLaw(a: nat, b: nat, i: nat)
    ensures Bit(BitAnd(a, b), i) <==> Bit(a, i) && Bit(b, i)
    ensures Bit(BitXor(a, b), i) <==> Bit(a, i) != Bit(b, i)
    decreases i
  {
    NoBits(i);
    if i > 0 && a > 0 && b > 0 {
      BitLaw(a / 2, b / 2, i - 1);
    }
  }

  function TwoTo(k: nat): nat {
    if k == 0 then 1 else 2 * TwoTo(k - 1)
  }

  /** Among 2 to the k buckets an item's bucket is the remainder of its hash. */
  lemma {:induction false} BucketLaw(hash: nat, k: nat)
    ensures TwoTo(k) > 0 && BucketOf(hash, TwoTo(k)) == hash % TwoTo(k)
    decreases k
  {
    if k > 0 {
      BucketLaw(hash / 2, k - 1);
      var p := TwoTo(k - 1);
      assert TwoTo(k) - 1 == 2 * (p - 1) + 1;
      HalfRemainder(hash, p);
    } else {
      assert BitAnd(hash, 0) == 0;
    }
  }

  lemma HalfRemainder(x: nat, p: nat)
    requires p > 0
    ensures x % (2 * p) == 2 * ((x / 2) % p) + x % 2
  {
    var q, r := (x / 2) / p, (x / 2) % p;
    assert x / 2 == q * p + r;
    assert x == q * (2 * p) + (2 * r + x % 2);
    ModUnique(x, q, 2 * r + x % 2, 2 * p);
  }

  /** The published FNV-1 values of the empty text and of `a`. */
  lemma HashLaw()
    ensures Hash("") == 0x811c9dc5 && Hash("a") == 0x050c5d7e
  {
    assert "a"[1..] == "";
    FirstProduct();
    LetterXor();
    hide BitXor, U32;
    assert HashStep(FNV_OFFSET, 'a') == 0x050c5d7e;
  }

  lemma FirstProduct()
    ensures U32(FNV_OFFSET * FNV_PRIME) == 0x050c5d1f && CharBits('a') == 0x61
  {
  }

  lemma LetterXor()
    ensures BitXor(0x050c5d1f, 0x61) == 0x050c5d7e
  {
    assert BitXor(1323380, 1) == 1323381;
    assert BitXor(2646760, 3) == 2646763;
    assert BitXor(5293521, 6) == 5293527;
    assert BitXor(10587043, 12) == 10587055;
    assert BitXor(21174087, 24) == 21174111;
    assert BitXor(42348175, 48) == 42348223;
  }

  // ---------- chains ----------

  class Item {
    var next: Item?
    var key: string
    var data: Option<string>
    var khash: nat
    var times_found: nat

    constructor (key: string, khash: nat, next: Item?)
      ensures this.key == key && this.khash == khash && this.next == next && data == None && times_found == 0
    {
      this.key, this.khash, this.next, data, times_found := key, khash, next, None, 0;
    }
  }

  /** The items c are linked in order from head to null, each only once. */
  ghost predicate Linked(head: Item?, c: seq<Item>)
    reads c
  {
    && head == (if c == [] then null else c[0])
    && (forall j, k :: 0 <= j && k == j + 1 < |c| ==> c[j].next == c[k])
    && (c != [] ==> c[|c| - 1].next == null)
    && (forall j, k :: 0 <= j < k < |c| ==> c[j] != c[k])
  }

  /** One more item at the front. */
  lemma LinkedMore(head: Item?, c: seq<Item>, x: Item)
    requires Linked(head, c) && x !in c && x.next == head
    ensures Linked(x, [x] + c)
  {
  }

  /** The next item of a chain. */
  lemma NextOf(head: Item?, c: seq<Item>, k: nat)
    requires Linked(head, c) && k < |c|
    ensures c[k].next == if k + 1 < |c| then c[k + 1] else null
  {
  }

  ghost function ItemsOf(chains: seq<seq<Item>>): set<Item> {
    set b, k | 0 <= b < |chains| && 0 <= k < |chains[b]| :: chains[b][k]
  }

  ghost predicate Links(heads: seq<Item?>, chains: seq<seq<Item>>)
    reads ItemsOf(chains)
  {
    |heads| == |chains| && forall b :: 0 <= b < |chains| ==> Linked(heads[b], chains[b])
  }

  /** Every entry is in the chain of its bucket, and the chains hold nothing else. */
  ghost predicate Indexed(table: map<string, Item>, chains: seq<seq<Item>>, n: nat)
    reads table.Values
  {
    && 0 < n == |chains|
    && (forall key :: key in table ==>
          table[key].key == key && table[key].khash == Hash(key) && table[key] in chains[BucketOf(Hash(key), n)])
    && (forall b, k :: 0 <= b < n && 0 <= k < |chains[b]| ==>
          chains[b][k] in table.Values && BucketOf(chains[b][k].khash, n) == b)
  }

  lemma IndexedFacts(table: map<string, Item>, chains: seq<seq<Item>>, n: nat)
    requires Indexed(table, chains, n)
    ensures 0 < n == |chains| && forall key :: key in table ==> table[key].key == key && table[key].khash == Hash(key)
  {
  }

  /** A new item at the front of chain b. */
  lemma LinksMore(heads: seq<Item?>, chains: seq<seq<Item>>, b: nat, x: Item)
    requires Links(heads, chains) && b < |chains| && x !in ItemsOf(chains) && x.next == heads[b]
    ensures Links(heads[b := x], chains[b := [x] + chains[b]])
  {
    hide Linked;
    LinkedMore(heads[b], chains[b], x);
  }

  lemma ItemsOfMore(chains: seq<seq<Item>>, b: nat, x: Item)
    requires b < |chains|
    ensures ItemsOf(chains[b := [x] + chains[b]]) == ItemsOf(chains) + {x}
  {
    var more := chains[b := [x] + chains[b]];
    forall y ensures y in ItemsOf(more) <==> y in ItemsOf(chains) + {x} {
      if y in ItemsOf(more) {
        var i, k :| 0 <= i < |more| && 0 <= k < |more[i]| && more[i][k] == y;
        assert i != b || k == 0 || chains[b][k - 1] == y;
      }
      if y in ItemsOf(chains) {
        var i, k :| 0 <= i < |chains| && 0 <= k < |chains[i]| && chains[i][k] == y;
        assert more[i][if i == b then k + 1 else k] == y;
      }
      assert more[b][0] == x;
    }
  }

  lemma IndexedMore(table: map<string, Item>, chains: seq<seq<Item>>, n: nat, x: Item)
    requires Indexed(table, chains, n) && x.key !in table && x.khash == Hash(x.key)
    ensures var b := BucketOf(Hash(x.key), n); Indexed(table[x.key := x], chains[b := [x] + chains[b]], n)
    ensures table[x.key := x].Values == table.Values + {x}
  {
    hide Hash, BucketOf;
    var b := BucketOf(Hash(x.key), n);
    var more, t := chains[b := [x] + chains[b]], table[x.key := x];
    forall key | key in t ensures t[key].key == key && t[key].khash == Hash(key)
        && t[key] in more[BucketOf(Hash(key), n)] {
    }
    forall y | y in table.Values ensures y in t.Values {
      assert t[y.key] == y;
    }
    assert t[x.key] == x;
    forall i, k | 0 <= i < n && 0 <= k < |more[i]| ensures more[i][k] in t.Values
        && BucketOf(more[i][k].khash, n) == i {
      assert t[x.key] == x;
      if i == b && k == 0 {
      } else {
        var y := chains[i][if i == b then k - 1 else k];
        assert y == more[i][k] && y in table.Values;
        assert t[y.key] == y;
      }
    }
  }

  /** Every item is in the chain of its bucket, for n buckets. */
  ghost predicate Bucketed(chains: seq<seq<Item>>, n: nat)
    reads ItemsOf(chains)
  {
    0 < n == |chains| && forall b, k :: 0 <= b < n && 0 <= k < |chains[b]| ==> BucketOf(chains[b][k].khash, n) == b
  }

  lemma IndexedIsBucketed(table: map<string, Item>, chains: seq<seq<Item>>, n: nat)
    requires Indexed(table, chains, n)
    ensures Bucketed(chains, n) && ItemsOf(chains) == table.Values
  {
    hide Hash, BucketOf;
    forall x | x in table.Values ensures x in ItemsOf(chains) {
      var c := chains[BucketOf(Hash(x.key), n)];
      var k :| 0 <= k < |c| && c[k] == x;
    }
    forall x | x in ItemsOf(chains) ensures x in table.Values {
      var b, k :| 0 <= b < |chains| && 0 <= k < |chains[b]| && chains[b][k] == x;
    }
  }

  lemma BucketedIsIndexed(table: map<string, Item>, chains: seq<seq<Item>>, n: nat)
    requires Bucketed(chains, n) && ItemsOf(chains) == table.Values
    requires forall key :: key in table ==> table[key].key == key && table[key].khash == Hash(key)
    ensures Indexed(table, chains, n)
  {
    hide Hash, BucketOf;
    forall key | key in table ensures table[key] in chains[BucketOf(Hash(key), n)] {
      var x := table[key];
      assert x in ItemsOf(chains);
      var b, k :| 0 <= b < |chains| && 0 <= k < |chains[b]| && chains[b][k] == x;
    }
    forall b, k | 0 <= b < n && 0 <= k < |chains[b]| ensures chains[b][k] in table.Values {
      assert chains[b][k] in ItemsOf(chains);
    }
  }

  /** Item k of chain j taken out. */
  ghost function Without(chains: seq<seq<Item>>, j: nat, k: nat): seq<seq<Item>>
    requires j < |chains| && k < |chains[j]|
  {
    chains[j := chains[j][..k] + chains[j][k + 1..]]
  }

  lemma ItemsOfLess(heads: seq<Item?>, chains: seq<seq<Item>>, n: nat, j: nat, k: nat)
    requires Links(heads, chains) && Bucketed(chains, n) && j < n && k < |chains[j]|
    ensures Bucketed(Without(chains, j, k), n) && ItemsOf(Without(chains, j, k)) == ItemsOf(chains) - {chains[j][k]}
    ensures chains[j][k] in ItemsOf(chains)
  {
    hide BucketOf;
    var x, less, c := chains[j][k], Without(chains, j, k), chains[j];
    assert Linked(heads[j], c);
    assert forall i :: 0 <= i < |c| && i != k ==> c[i] != x;
    hide Links, Linked;
    assert forall i :: 0 <= i < |less[j]| ==> less[j][i] == c[if i < k then i else i + 1];
    forall y | y in ItemsOf(less) ensures y in ItemsOf(chains) && y != x {
      var b, i :| 0 <= b < |less| && 0 <= i < |less[b]| && less[b][i] == y;
      assert y == chains[b][if b == j && i >= k then i + 1 else i];
    }
    forall y | y in ItemsOf(chains) && y != x ensures y in ItemsOf(less) {
      var b, i :| 0 <= b < |chains| && 0 <= i < |chains[b]| && chains[b][i] == y;
      assert less[b][if b == j && i > k then i - 1 else i] == y;
    }
  }

  /** The first item of chain j taken off. */
  lemma LinksLess(heads: seq<Item?>, chains: seq<seq<Item>>, n: nat, j: nat)
    requires Links(heads, chains) && Bucketed(chains, n) && j < n && chains[j] != []
    ensures var x, less := chains[j][0], chains[j := chains[j][1..]];
            && x == heads[j] && Links(heads[j := x.next], less) && Bucketed(less, n)
            && ItemsOf(less) == ItemsOf(chains) - {x} && x in ItemsOf(chains)
  {
    hide BucketOf, Bucketed, ItemsOf;
    BucketedSize(chains, n);
    ItemsOfLess(heads, chains, n, j, 0);
    var x, less := chains[j][0], chains[j := chains[j][1..]];
    assert Without(chains, j, 0) == less by {
      assert chains[j][..0] + chains[j][1..] == chains[j][1..];
    }
    NextOf(heads[j], chains[j], 0);
    forall b | 0 <= b < n ensures Linked(heads[j := x.next][b], less[b]) {
      assert b != j ==> Linked(heads[b], chains[b]);
    }
  }

  /** Where the item before it has been made to point past it, an item is out of its chain. */
  twostate lemma LinkedPast(head: Item?, new c: seq<Item>, new k: nat)
    requires 0 < k < |c| && (forall j :: 0 <= j < |c| ==> old(allocated(c[j]))) && old(Linked(head, c))
    requires c[k - 1].next == old(c[k].next) && forall j :: 0 <= j < |c| && j != k - 1 ==> c[j].next == old(c[j].next)
    ensures Linked(head, c[..k] + c[k + 1..])
  {
    var d := c[..k] + c[k + 1..];
    assert forall i :: 0 <= i < |d| ==> d[i] == c[if i < k then i else i + 1];
    forall i, j | 0 <= i && j == i + 1 < |d| ensures d[i].next == d[j] {
      if i >= k {
        assert c[i + 1].next == c[j + 1];
      } else if i < k - 1 {
        assert c[i].next == c[j];
      } else {
        assert old(c[k].next == c[k + 1]);
      }
    }
  }

  /** The length of all chains together. */
  function Total(chains: seq<seq<Item>>): nat {
    if chains == [] then 0 else Total(chains[..|chains| - 1]) + |chains[|chains| - 1]|
  }

  lemma ItemsOfAppend(chains: seq<seq<Item>>, c: seq<Item>)
    ensures ItemsOf(chains + [c]) == ItemsOf(chains) + set x | x in c
  {
    var more := chains + [c];
    forall x ensures x in ItemsOf(more) <==> x in ItemsOf(chains) || x in c {
      if x in ItemsOf(chains) {
        var b, k :| 0 <= b < |chains| && 0 <= k < |chains[b]| && chains[b][k] == x;
        assert more[b][k] == x;
      }
      if x in c {
        var k :| 0 <= k < |c| && c[k] == x;
        assert more[|chains|][k] == x;
      }
    }
  }

  lemma ItemsApart(chains: seq<seq<Item>>, n: nat, m: nat)
    requires Bucketed(chains, n) && m < n
    ensures ItemsOf(chains[..m]) !! set x | x in chains[m]
  {
    hide BucketOf;
    forall x | x in ItemsOf(chains[..m]) ensures x !in chains[m] {
      var b, k :| 0 <= b < m && 0 <= k < |chains[..m][b]| && chains[..m][b][k] == x;
      assert BucketOf(chains[b][k].khash, n) == b;
    }
  }

  /** Chains of different items have as many items as they are long. */
  lemma {:induction false} TotalIsItems(heads: seq<Item?>, chains: seq<seq<Item>>, n: nat, m: nat)
    requires Links(heads, chains) && Bucketed(chains, n) && m <= n
    ensures |chains| == n && Total(chains[..m]) == |ItemsOf(chains[..m])|
  {
    hide Links, Linked, Bucketed, ItemsOf;
    BucketedSize(chains, n);
    if m == 0 {
      NoItemsLeft(chains[..0]);
    } else {
      var before, c := chains[..m - 1], chains[m - 1];
      assert chains[..m] == before + [c] && chains[..m][..m - 1] == before;
      TotalIsItems(heads, chains, n, m - 1);
      ChainSize(heads, chains, m - 1);
      ItemsApart(chains, n, m - 1);
      ItemsOfAppend(before, c);
    }
  }

  lemma ChainSize(heads: seq<Item?>, chains: seq<seq<Item>>, b: nat)
    requires Links(heads, chains) && b < |chains|
    ensures |set x | x in chains[b]| == |chains[b]|
  {
    assert Linked(heads[b], chains[b]);
    DistinctSize(chains[b]);
  }

  lemma {:induction false} DistinctSize(c: seq<Item>)
    requires forall j, k :: 0 <= j < k < |c| ==> c[j] != c[k]
    ensures |set x | x in c| == |c|
  {
    if c != [] {
      var d := c[..|c| - 1];
      DistinctSize(d);
      assert (set x | x in c) == (set x | x in d) + {c[|c| - 1]};
    }
  }

  method SetBucket(buckets: array<Item?>, b: nat, item: Item?)
    requires b < buckets.Length
    modifies buckets
    ensures buckets[..] == old(buckets[..])[b := item]
  {
    buckets[b] := item;
  }

  const DEFAULT_HASH_BUCKETS := 128
  const HASH_REHASH_MULTIPLIER := 4
  const HASH_REHASH_FACTOR := 2

  /** The number of buckets after an item has been added to n buckets with `entries` items: four times as many, if
      there were two items to a bucket and four times as many are still a positive int. */
  function GrownBuckets(n: nat, entries: nat): nat {
    if entries < n * HASH_REHASH_FACTOR then n
    else
      var nsize := TruncateToInt(n * HASH_REHASH_MULTIPLIER);
      if nsize > 0 then nsize else n
  }

  /** Growing keeps at most two items to a bucket, as long as the number of buckets stays an int. */
  lemma LoadLaw(n: nat, entries: nat)
    requires 0 < n <= INT_MAX / 4 && entries <= 2 * n
    ensures entries + 1 <= 2 * GrownBuckets(n, entries) && GrownBuckets(n, entries) >= n
  {
  }

  /** What an item holds besides its key. */
  datatype Held = Held(data: Option<string>, times_found: int)

  class Table {
    var bucket_array: array<Item?>
    var nbuckets: nat
    var nentries: nat
    ghost var chains: seq<seq<Item>>
    ghost var table: map<string, Item>
    ghost var Repr: set<object>

    ghost predicate Valid()
      reads this, Repr
    {
      && this in Repr && bucket_array in Repr && (forall key :: key in table ==> table[key] in Repr)
      && bucket_array.Length == nbuckets && Indexed(table, chains, nbuckets)
      && ItemsOf(chains) <= table.Values
      && Links(bucket_array[..], chains)
      && nentries == |table|
    }

    /** hash_create */
    constructor (buckets: nat)
      ensures Valid() && table == map[] && fresh(Repr) && nbuckets == if buckets == 0 then DEFAULT_HASH_BUCKETS
              else buckets
      ensures fresh(bucket_array) && bucket_array.Length == nbuckets
    {
      var n := if buckets == 0 then DEFAULT_HASH_BUCKETS else buckets;
      bucket_array := new Item?[n](_ => null);
      nbuckets, nentries := n, 0;
      chains, table := seq(n, _ => []), map[];
      new;
      Repr := {this, bucket_array};
    }

    /** nentries is the length of all chains together. */
    lemma EntriesAreChained()
      requires Valid()
      ensures nentries == Total(chains)
    {
      hide Hash, BucketOf, Links;
      IndexedFacts(table, chains, nbuckets);
      IndexedIsBucketed(table, chains, nbuckets);
      TotalIsItems(bucket_array[..], chains, nbuckets, nbuckets);
      assert chains[..nbuckets] == chains;
      OneItemPerKey(table);
    }

    /** The place of a key's item in the chain that is searched for it. */
    method Scan(key: string) returns (item: Item?, ghost k: nat)
      requires Valid()
      ensures item == if key in table then table[key] else null
      ensures var b := BucketOf(Hash(key), nbuckets);
              key in table ==> k < |chains[b]| && chains[b][k] == item
    {
      hide Hash, BucketOf;
      var hv := HashString(key);
      ghost var b := BucketOf(hv, nbuckets);
      ghost var c := chains[b];
      item, k := bucket_array[BucketOf(hv, nbuckets)], 0;
      while item != null
        invariant k <= |c| && item == (if k < |c| then c[k] else null)
        invariant forall j :: 0 <= j < k ==> c[j].key != key
        decreases |c| - k
      {
        if hv == item.khash && item.key == key {
          return;
        }
        item, k := item.next, k + 1;
      }
    }

    /** A new item for a key that is not in the table, at the front of its chain. */
    method AddItem(key: string) returns (item: Item)
      requires Valid() && key !in table
      modifies Repr
      ensures Valid() && fresh(item) && Repr == old(Repr) + {item} && nbuckets == old(nbuckets)
      ensures table == old(table)[key := item] && item.data == None && item.times_found == 0
      ensures forall k :: k in old(table) ==>
                table[k].data == old(table[k].data) && table[k].times_found == old(table[k].times_found)
    {
      hide Hash, BucketOf, Links, Indexed, ItemsOf;
      var hv := HashString(key);
      IndexedFacts(table, chains, nbuckets);
      item := new Item(key, hv, bucket_array[BucketOf(hv, nbuckets)]);
      PutFirst(item);
    }

    /** Puts item at the front of the chain that it already points at. */
    method PutFirst(item: Item)
      requires Valid() && item !in Repr && item.key !in table && item.khash == Hash(item.key)
      requires item.next == bucket_array[BucketOf(item.khash, nbuckets)]
      modifies this, bucket_array
      ensures Valid() && Repr == old(Repr) + {item} && nbuckets == old(nbuckets)
              && table == old(table)[item.key := item]
    {
      hide Hash, BucketOf, Links, Indexed, ItemsOf;
      IndexedFacts(table, chains, nbuckets);
      var b := BucketOf(item.khash, nbuckets);
      ghost var more, t := chains[b := [item] + chains[b]], table[item.key := item];
      OneMore(item, b);
      SetBucket(bucket_array, b, item);
      Adopt(more, t, Repr + {item});
    }

    /** The entries with one more item at the front of chain b. */
    lemma OneMore(item: Item, b: nat)
      requires Valid() && item !in Repr && item.key !in table && item.khash == Hash(item.key)
               && b == BucketOf(item.khash, nbuckets)
      requires item.next == bucket_array[b]
      ensures |chains| == nbuckets
      ensures var more, t := chains[b := [item] + chains[b]], table[item.key := item];
              && Links(bucket_array[..][b := item], more) && Indexed(t, more, nbuckets) && ItemsOf(more) <= t.Values
              && |t| == nentries + 1 && forall key :: key in t ==> t[key] in Repr + {item}
    {
      hide Hash, BucketOf, Links, Indexed, ItemsOf;
      IndexedFacts(table, chains, nbuckets);
      LinksMore(bucket_array[..], chains, b, item);
      ItemsOfMore(chains, b, item);
      IndexedMore(table, chains, nbuckets, item);
    }

    /** Takes over new entries, of which there is one more. */
    method Adopt(ghost more: seq<seq<Item>>, ghost t: map<string, Item>, ghost owned: set<object>)
      requires this in owned && bucket_array in owned && (forall key :: key in t ==> t[key] in owned)
      requires bucket_array.Length == nbuckets && Indexed(t, more, nbuckets) && ItemsOf(more) <= t.Values
      requires Links(bucket_array[..], more) && nentries + 1 == |t|
      modifies this`nentries, this`chains, this`table, this`Repr
      ensures Valid() && Repr == owned && table == t
    {
      hide Links, Indexed, ItemsOf;
      chains, table, Repr := more, t, owned;
      nentries := nentries + 1;
    }

    /** hash_rehash: moves every item to its chain among nsize buckets. */
    method Rehash(nsize: nat)
      requires Valid() && nsize > 0
      modifies Repr
      ensures Valid() && fresh(Repr - old(Repr)) && table == old(table) && nbuckets == nsize
              && nentries == old(nentries)
      ensures Kept(table, old(Entries()))
    {
      hide Hash, BucketOf, Links, Indexed, ItemsOf, Bucketed, Entries, Kept;
      if nsize == nbuckets {
        StillKept();
        return;
      }
      IndexedFacts(table, chains, nbuckets);
      IndexedIsBucketed(table, chains, nbuckets);
      var e := new Item?[nsize](_ => null);
      ghost var nc: seq<seq<Item>> := seq(nsize, _ => []);
      EmptyChains(e[..], nc);
      ghost var items := table.Values;
      nc := MoveAll(bucket_array, nbuckets, e, nsize, chains, nc, items);
      assert forall key :: key in table ==>
               table[key].khash == old(table[key].khash) && table[key].key == old(table[key].key);
      Install(e, nsize, nc);
      StillKept();
    }

    twostate lemma StillKept()
      requires table == old(table)
      requires forall key :: key in table ==>
                 table[key].data == old(table[key].data) && table[key].times_found == old(table[key].times_found)
      ensures Kept(table, old(Entries()))
    {
    }

    /** Makes e the array of buckets. */
    method Install(e: array<Item?>, nsize: nat, ghost nc: seq<seq<Item>>)
      requires this in Repr
               && (forall key :: key in table ==>
                     table[key] in Repr && table[key].key == key && table[key].khash == Hash(key))
      requires e.Length == nsize && Links(e[..], nc) && Bucketed(nc, nsize) && ItemsOf(nc) == table.Values
               && nentries == |table|
      modifies this`nbuckets, this`bucket_array, this`chains, this`Repr
      ensures Valid() && table == old(table) && nentries == old(nentries) && nbuckets == nsize
              && Repr == old(Repr) + {e}
    {
      hide Hash, BucketOf, Links, Indexed, ItemsOf, Bucketed;
      BucketedIsIndexed(table, nc, nsize);
      nbuckets, bucket_array, chains := nsize, e, nc;
      Repr := Repr + {e};
    }

    /** hash_grow, unless four times the size is no longer a positive int */
    method Grow()
      requires Valid()
      modifies Repr
      ensures Valid() && fresh(Repr - old(Repr)) && table == old(table) && Kept(old(table), old(Entries()))
      ensures nentries == old(nentries)
      ensures var nsize := TruncateToInt(old(nbuckets) * HASH_REHASH_MULTIPLIER);
              nbuckets == if nsize > 0 then nsize else old(nbuckets)
    {
      var nsize := TruncateToInt(nbuckets * HASH_REHASH_MULTIPLIER);
      if nsize > 0 {
        Rehash(nsize);
      }
    }

    /** What the items hold. */
    ghost function Entries(): map<string, Held>
      reads this, table.Values
    {
      map key | key in table :: Held(table[key].data, table[key].times_found)
    }

    /** The items of t hold what they held. */
    ghost predicate Kept(t: map<string, Item>, entries: map<string, Held>)
      reads t.Values
    {
      t.Keys == entries.Keys && forall key :: key in t ==> Held(t[key].data, t[key].times_found) == entries[key]
    }

    /** What hash_search and hash_insert do for a key that is not in the table. */
    method Create(key: string) returns (item: Item)
      requires Valid() && key !in table
      modifies Repr
      ensures Valid() && fresh(Repr - old(Repr)) && fresh(item) && table == old(table)[key := item]
      ensures item.data == None && item.times_found == 0 && Kept(old(table), old(Entries()))
      ensures nbuckets == GrownBuckets(old(nbuckets), old(nentries))
    {
      hide Links, Indexed, ItemsOf, Hash, BucketOf, TruncateToInt;
      if nentries >= nbuckets * HASH_REHASH_FACTOR {
        Grow();
      }
      item := AddItem(key);
    }

    /** hash_search: the item of key; with `create`, a new one if there is none. */
    method Search(key: string, create: bool) returns (item: Item?)
      requires Valid()
      modifies Repr
      ensures Valid() && fresh(Repr - old(Repr))
      ensures key in old(table) ==>
                table == old(table) && item == table[key]
                && Entries() == old(Entries())[key := Held(old(table[key].data), old(table[key].times_found) + 1)]
      ensures key !in old(table) && !create ==> item == null && table == old(table) && Entries() == old(Entries())
      ensures key !in old(table) && create ==>
                item != null && table == old(table)[key := item] && item.data == None && item.times_found == 0
                && Kept(old(table), old(Entries()))
      ensures nbuckets == if key in old(table) || !create then old(nbuckets)
                          else GrownBuckets(old(nbuckets), old(nentries))
    {
      hide Links, Indexed, ItemsOf, Hash, BucketOf;
      if !create && nentries == 0 {
        return null;
      }
      ghost var k;
      item, k := Scan(key);
      if item != null {
        Found(key, item);
      } else if create {
        item := Create(key);
      }
    }

    /** list->times_found++ */
    method Found(key: string, item: Item)
      requires Valid() && key in table && table[key] == item
      modifies item`times_found
      ensures Valid() && item.times_found == old(item.times_found) + 1
      ensures Entries() == old(Entries())[key := Held(item.data, item.times_found)]
    {
      hide Hash, BucketOf, Links, Indexed, ItemsOf;
      IndexedFacts(table, chains, nbuckets);
      item.times_found := item.times_found + 1;
      StillValid();
      OneChanged(key);
    }

    /** The entries after a change to what one item holds. */
    twostate lemma OneChanged(new key: string)
      requires table == old(table) && key in table
      requires forall other :: other in table && other != key ==>
                 table[other].data == old(table[other].data)
                     && table[other].times_found == old(table[other].times_found)
      ensures Entries() == old(Entries())[key := Held(table[key].data, table[key].times_found)]
    {
    }

    /** The entries after an item has been added. */
    lemma OneAdded(t: map<string, Item>, entries: map<string, Held>, key: string)
      requires key !in t && key in table && table == t[key := table[key]] && Kept(t, entries)
      ensures Entries() == entries[key := Held(table[key].data, table[key].times_found)]
    {
    }

    /** What items hold does not matter to the table. */
    twostate lemma StillValid()
      requires old(Valid()) && unchanged(this) && unchanged(bucket_array)
      requires forall key :: key in table ==>
                 var x := table[key]; x.next == old(x.next) && x.key == old(x.key) && x.khash == old(x.khash)
      ensures Valid()
    {
      hide Hash, BucketOf;
      StillIndexed();
      hide Indexed;
      StillLinked();
    }

    twostate lemma StillIndexed()
      requires old(Valid()) && unchanged(this)
      requires forall key :: key in table ==>
                 table[key].key == old(table[key].key) && table[key].khash == old(table[key].khash)
      ensures Indexed(table, chains, nbuckets)
    {
      hide Hash, BucketOf, Links;
    }

    twostate lemma StillLinked()
      requires old(Valid()) && unchanged(this) && unchanged(bucket_array)
      requires forall key :: key in table ==> table[key].next == old(table[key].next)
      ensures Links(bucket_array[..], chains)
    {
      hide Hash, BucketOf, Indexed;
      assert bucket_array[..] == old(bucket_array[..]);
      forall b | 0 <= b < |chains| ensures Linked(bucket_array[..][b], chains[b]) {
        assert old(Linked(bucket_array[..][b], chains[b]));
        forall k | 0 <= k < |chains[b]| ensures chains[b][k].next == old(chains[b][k].next) {
          assert chains[b][k] in ItemsOf(chains);
          assert chains[b][k] in table.Values;
        }
      }
    }

    /** hash_insert: the item of key, new if there is none. `nosearch` (HASH_NOSRCH) is for keys that are not
        in the table. */
    method Insert(key: string, nosearch: bool) returns (item: Item)
      requires Valid() && (nosearch ==> key !in table)
      modifies Repr
      ensures Valid() && fresh(Repr - old(Repr)) && table == old(table)[key := item]
      ensures key in old(table) ==> item == old(table)[key] && item.data == old(item.data)
      ensures key !in old(table) ==> item.data == None && item.times_found == 0
      ensures Entries() == old(Entries())[key := Held(item.data, item.times_found)]
      ensures nbuckets == if key in old(table) then old(nbuckets) else GrownBuckets(old(nbuckets), old(nentries))
    {
      hide Links, Indexed, ItemsOf, Hash, BucketOf, GrownBuckets;
      var found: Item? := null;
      if !nosearch {
        found := Search(key, false);
      }
      if found != null {
        assert Entries()[key] == Held(found.data, found.times_found);
        return found;
      }
      item := Create(key);
      OneAdded(old(table), old(Entries()), key);
    }

    /** hash_remove: takes the item of key out and returns it. */
    method Remove(key: string) returns (item: Item?)
      requires Valid()
      modifies Repr
      ensures Valid() && Repr <= old(Repr) && table == old(table) - {key}
      ensures item == if key in old(table) then old(table)[key] else null
      ensures Entries() == old(Entries()) - {key} && (item != null ==> item !in Repr && item.data == old(item.data))
    {
      hide Hash, BucketOf, ItemsOf, Links, Indexed;
      if nentries == 0 {
        return null;
      }
      if key !in table {
        AbsentEntry(key);
      }
      hide Entries;
      var bucket, prev;
      ghost var k;
      bucket, prev, item, k := ScanWithPrevious(key);
      if item != null {
        Unchain(key, bucket, k, prev, item);
      }
    }

    lemma AbsentEntry(key: string)
      requires key !in table
      ensures table - {key} == table && Entries() - {key} == Entries()
    {
    }

    /** The loop of hash_remove, up to the item of key. */
    method ScanWithPrevious(key: string) returns (bucket: nat, prev: Item?, item: Item?, ghost k: nat)
      requires Valid()
      ensures item == if key in table then table[key] else null
      ensures key in table ==>
                bucket < nbuckets == |chains| && k < |chains[bucket]| && item == chains[bucket][k]
                && prev == if k == 0 then null else chains[bucket][k - 1]
    {
      hide Hash, BucketOf;
      var hv := HashString(key);
      bucket, prev, k := BucketOf(hv, nbuckets), null, 0;
      ghost var c := chains[bucket];
      item := bucket_array[bucket];
      while item != null
        invariant k <= |c| && item == (if k < |c| then c[k] else null) && prev == (if k == 0 then null else c[k - 1])
        invariant forall j :: 0 <= j < k ==> c[j].key != key
        decreases |c| - k
      {
        if hv == item.khash && item.key == key {
          return;
        }
        prev, item, k := item, item.next, k + 1;
      }
    }

    /** Takes item, which is at place k of its chain, after prev, out of the table. */
    method Unchain(key: string, bucket: nat, ghost k: nat, prev: Item?, item: Item)
      requires Valid() && key in table && table[key] == item && bucket < nbuckets == |chains| && k < |chains[bucket]|
      requires item == chains[bucket][k] && prev == if k == 0 then null else chains[bucket][k - 1]
      modifies Repr
      ensures Valid() && Repr == old(Repr) - {item} && table == old(table) - {key}
              && Entries() == old(Entries()) - {key}
      ensures item.data == old(item.data)
    {
      hide Hash, BucketOf, Links, Indexed, ItemsOf, Bucketed, Entries;
      IndexedFacts(table, chains, nbuckets);
      IndexedIsBucketed(table, chains, nbuckets);
      ItemsOfLess(bucket_array[..], chains, nbuckets, bucket, k);
      ghost var less := Without(chains, bucket, k);
      RemovedValues(table, key);
      Unlink(bucket, k, prev, item, less, table.Values);
      BucketedIsIndexed(table - {key}, less, nbuckets);
      Forget(key, less, item);
      EntriesLess(key);
    }

    twostate lemma EntriesLess(new key: string)
      requires table == old(table) - {key}
      requires forall other :: other in table ==>
                 table[other].data == old(table[other].data)
                     && table[other].times_found == old(table[other].times_found)
      ensures Entries() == old(Entries()) - {key}
    {
    }

    /** The entries without the one of key. */
    method Forget(key: string, ghost less: seq<seq<Item>>, ghost item: Item)
      requires key in table && this in Repr && bucket_array in Repr && (forall k :: k in table ==> table[k] in Repr)
      requires bucket_array.Length == nbuckets && Indexed(table - {key}, less, nbuckets)
               && Links(bucket_array[..], less)
      requires ItemsOf(less) <= (table - {key}).Values && |table - {key}| == nentries - 1
      requires item == table[key] && item !in (table - {key}).Values
      modifies this`nentries, this`chains, this`table, this`Repr
      ensures Valid() && Repr == old(Repr) - {item} && table == old(table) - {key}
    {
      hide Links, Indexed, ItemsOf;
      chains, table, Repr := less, table - {key}, Repr - {item};
      nentries := nentries - 1;
    }

    method Unlink(bucket: nat, ghost k: nat, prev: Item?, item: Item, ghost less: seq<seq<Item>>,
          ghost items: set<Item>)
      requires bucket < |chains| == bucket_array.Length && k < |chains[bucket]| && Links(bucket_array[..], chains)
      requires Bucketed(chains, |chains|) && items == ItemsOf(chains) && less == Without(chains, bucket, k)
      requires item == chains[bucket][k] && prev == if k == 0 then null else chains[bucket][k - 1]
      modifies bucket_array, items`next
      ensures Links(bucket_array[..], less) && Bucketed(less, |chains|)
    {
      hide Hash, BucketOf, ItemsOf, Bucketed;
      ItemsOfLess(bucket_array[..], chains, |chains|, bucket, k);
      assert forall x :: x in ItemsOf(less) ==> x in items;
      if prev != null {
        hide Links;
        UnlinkPast(bucket, k, prev, item, less, items);
      } else {
        hide Links;
        LinksLess(bucket_array[..], chains, |chains|, bucket);
        assert chains[bucket][..0] + chains[bucket][1..] == chains[bucket][1..];
        SetBucket(bucket_array, bucket, item.next);
      }
      StillBucketed(less, |chains|);
    }

    method UnlinkPast(bucket: nat, ghost k: nat, prev: Item, item: Item, ghost less: seq<seq<Item>>,
          ghost items: set<Item>)
      requires bucket < |chains| == bucket_array.Length && 0 < k < |chains[bucket]| && Links(bucket_array[..], chains)
      requires Bucketed(chains, |chains|) && items == ItemsOf(chains) && less == Without(chains, bucket, k)
      requires item == chains[bucket][k] && prev == chains[bucket][k - 1]
      modifies items`next
      ensures Links(bucket_array[..], less)
    {
      hide Hash, BucketOf;
      ghost var c := chains[bucket];
      assert prev in items;
      prev.next := item.next;
      LinkedPast(bucket_array[bucket], c, k);
      forall b | 0 <= b < |chains| && b != bucket ensures Linked(bucket_array[b], chains[b]) {
        assert old(Linked(bucket_array[..][b], chains[b]));
        forall i | 0 <= i < |chains[b]| ensures chains[b][i] != prev && chains[b][i] in items {
        }
      }
    }

    /** item->data = data, for an item of the table */
    method SetData(item: Item, ghost key: string, data: Option<string>)
      requires Valid() && key in table && table[key] == item
      modifies item`data
      ensures Valid() && Entries() == old(Entries())[key := Held(data, old(item.times_found))]
    {
      hide Hash, BucketOf, Links, Indexed, ItemsOf;
      IndexedFacts(table, chains, nbuckets);
      item.data := data;
      StillValid();
      OneChanged(key);
    }

    /** Any run of requests does what it does on a map. */
    method Replay(requests: seq<Request>) returns (outs: seq<Option<string>>)
      requires Valid() && LegalRun(DataOf(Entries()), requests)
      modifies Repr
      ensures Valid() && fresh(Repr - old(Repr)) && (DataOf(Entries()), outs) == Run(DataOf(old(Entries())), requests)
    {
      hide Hash, BucketOf, Links, Indexed, ItemsOf;
      outs := [];
      for n := 0 to |requests|
        invariant Valid() && fresh(Repr - old(Repr))
        invariant (DataOf(Entries()), outs) == Run(DataOf(old(Entries())), requests[..n])
      {
        assert requests[..n + 1][..n] == requests[..n];
        var out := Perform(requests[n]);
        outs := outs + [out];
      }
      assert requests[..|requests|] == requests;
    }

    method Perform(request: Request) returns (out: Option<string>)
      requires Valid() && Legal(DataOf(Entries()), request)
      modifies Repr
      ensures Valid() && fresh(Repr - old(Repr)) && (DataOf(Entries()), out) == Step(DataOf(old(Entries())), request)
    {
      hide Hash, BucketOf, Links, Indexed, ItemsOf;
      match request
      case Lookup(key) => out := PerformLookup(key);
      case Create(key) => out := PerformCreate(key);
      case Store(key, data) =>
        PerformStore(key, data, false);
        out := None;
      case StoreNew(key, data) =>
        PerformStore(key, data, true);
        out := None;
      case Delete(key) => out := PerformDelete(key);
    }

    method PerformLookup(key: string) returns (out: Option<string>)
      requires Valid()
      modifies Repr
      ensures Valid() && fresh(Repr - old(Repr))
              && (DataOf(Entries()), out) == Step(DataOf(old(Entries())), Lookup(key))
    {
      hide Hash, BucketOf, Links, Indexed, ItemsOf, DataOf;
      if key in table {
        DataOfSet(Entries(), key, Held(table[key].data, table[key].times_found + 1));
      }
      DataOfSame(Entries(), key);
      var item := Search(key, false);
      out := if item != null then item.data else None;
    }

    method PerformCreate(key: string) returns (out: Option<string>)
      requires Valid()
      modifies Repr
      ensures Valid() && fresh(Repr - old(Repr))
              && (DataOf(Entries()), out) == Step(DataOf(old(Entries())), Request.Create(key))
    {
      hide Hash, BucketOf, Links, Indexed, ItemsOf, DataOf;
      ghost var before, t := Entries(), table;
      DataOfSame(before, key);
      if key in table {
        DataOfSet(before, key, Held(table[key].data, table[key].times_found + 1));
      }
      var item := Search(key, true);
      out := item.data;
      if key !in t {
        OneAdded(t, before, key);
        DataOfSet(before, key, Held(None, 0));
      }
    }

    lemma Owns(key: string)
      requires Valid() && key in table
      ensures table[key] in Repr
    {
    }

    lemma SameKeys()
      ensures Entries().Keys == table.Keys
    {
    }

    method PerformStore(key: string, data: string, nosearch: bool)
      requires Valid() && (nosearch ==> key !in DataOf(Entries()))
      modifies Repr
      ensures Valid() && fresh(Repr - old(Repr)) && DataOf(Entries()) == DataOf(old(Entries()))[key := Some(data)]
    {
      hide Valid, Hash, BucketOf, Links, Indexed, ItemsOf, DataOf;
      ghost var before := Entries();
      SameKeys();
      DataOfSame(before, key);
      var item := Insert(key, nosearch);
      ghost var between := Entries();
      Owns(key);
      DataOfSet(before, key, Held(item.data, item.times_found));
      DataOfSet(between, key, Held(Some(data), item.times_found));
      hide Entries;
      SetData(item, key, Some(data));
    }

    method PerformDelete(key: string) returns (out: Option<string>)
      requires Valid()
      modifies Repr
      ensures Valid() && fresh(Repr - old(Repr))
              && (DataOf(Entries()), out) == Step(DataOf(old(Entries())), Delete(key))
    {
      hide Hash, BucketOf, Links, Indexed, ItemsOf, DataOf;
      DataOfSame(Entries(), key);
      var item := Remove(key);
      out := if item != null then item.data else None;
    }

    /** hash_copy, with no function for the data: a table of its own with copies of the items. */
    method Copy() returns (new_table: Table)
      requires Valid()
      ensures new_table.Valid() && fresh(new_table.Repr) && new_table.nbuckets == nbuckets
              && new_table.Entries() == Entries()
    {
      hide Valid, ItemsOf, Entries, HeldBy, Links, Indexed, Hash, BucketOf;
      SomeBuckets();
      new_table := new Table(nbuckets);
      ghost var nc, t := new_table.CopyItems(this);
      new_table.TakeOver(nentries, nc, t, {new_table, new_table.bucket_array} + t.Values);
    }

    /** Fills the buckets with copies of the items of another table. */
    method CopyItems(from: Table) returns (ghost nc: seq<seq<Item>>, ghost t: map<string, Item>)
      requires from.Valid() && bucket_array !in from.Repr && bucket_array.Length == from.nbuckets
      modifies bucket_array
      ensures Links(bucket_array[..], nc) && Indexed(t, nc, from.nbuckets) && t.Values == ItemsOf(nc)
      ensures |t| == from.nentries && HeldBy(t) == from.Entries() && forall x :: x in t.Values ==> fresh(x)
    {
      hide Valid, ItemsOf, Entries, HeldBy, Links, Indexed, Hash, BucketOf, ChainsCopied;
      nc := CopyBuckets(from);
      t := from.CopiedEntries(nc);
    }

    lemma SomeBuckets()
      requires Valid()
      ensures nbuckets > 0
    {
      hide Hash, BucketOf;
      IndexedFacts(table, chains, nbuckets);
    }

    /** The entries of a table with copied chains. */
    lemma CopiedEntries(nc: seq<seq<Item>>) returns (t: map<string, Item>)
      requires Valid() && ChainsCopied(nc, chains)
      ensures Indexed(t, nc, nbuckets) && |t| == nentries && t.Values == ItemsOf(nc) && HeldBy(t) == Entries()
    {
      hide Hash, BucketOf, Indexed, ItemsOf, Links, ChainsCopied, CopiedTable;
      IndexedPlaces(table, chains, nbuckets);
      CopiedSize(chains, nc);
      CopyIsIndexed(bucket_array[..], table, chains, nbuckets, nc);
      t := CopiedTable(table, chains, nbuckets, nc);
      IndexedIsBucketed(t, nc, nbuckets);
      assert |t| == |t.Keys| && |table| == |table.Keys|;
      assert forall key :: key in t <==> key in t.Keys;
      assert forall key :: key in table <==> key in table.Keys;
    }

    /** The loop of hash_copy. */
    method CopyBuckets(from: Table) returns (ghost nc: seq<seq<Item>>)
      requires from.Valid() && bucket_array !in from.Repr && bucket_array.Length == from.nbuckets
      modifies bucket_array
      ensures Links(bucket_array[..], nc) && ChainsCopied(nc, from.chains) && forall x :: x in ItemsOf(nc) ==> fresh(x)
    {
      hide Hash, BucketOf, Indexed, ItemsOf, Linked, ChainCopied;
      IndexedFacts(from.table, from.chains, from.nbuckets);
      nc := [];
      NoItemsLeft(nc);
      for i := 0 to from.nbuckets
        invariant |nc| == i && (forall b :: 0 <= b < i ==>
                                  Linked(bucket_array[b], nc[b]) && ChainCopied(nc[b], from.chains[b]))
        invariant forall x :: x in ItemsOf(nc) ==> fresh(x)
      {
        var head;
        ghost var d;
        head, d := CopyChain(from.bucket_array[i], from.chains[i]);
        bucket_array[i] := head;
        ItemsOfAppend(nc, d);
        nc := nc + [d];
      }
    }

    /** Takes over the copied chains and the number of entries. */
    method TakeOver(entries: nat, ghost nc: seq<seq<Item>>, ghost t: map<string, Item>, ghost owned: set<object>)
      requires this in owned && bucket_array in owned && (forall key :: key in t ==> t[key] in owned)
      requires bucket_array.Length == nbuckets && Links(bucket_array[..], nc) && Indexed(t, nc, nbuckets)
               && ItemsOf(nc) <= t.Values
      requires entries == |t|
      modifies this`nentries, this`chains, this`table, this`Repr
      ensures Valid() && table == t && Repr == owned && Entries() == old(HeldBy(t))
    {
      hide Hash, BucketOf, Links, Indexed, ItemsOf;
      nentries := entries;
      chains, table, Repr := nc, t, owned;
    }
  }

  ghost function HeldBy(t: map<string, Item>): map<string, Held>
    reads t.Values
  {
    map key | key in t :: Held(t[key].data, t[key].times_found)
  }

  function DataOf(entries: map<string, Held>): map<string, Option<string>> {
    map key | key in entries :: entries[key].data
  }

  lemma DataOfSet(entries: map<string, Held>, key: string, h: Held)
    ensures DataOf(entries[key := h]) == DataOf(entries)[key := h.data]
  {
  }

  lemma DataOfSame(entries: map<string, Held>, key: string)
    ensures DataOf(entries - {key}) == DataOf(entries) - {key}
    ensures key in DataOf(entries) <==> key in entries
    ensures key in entries ==>
              DataOf(entries)[key] == entries[key].data
              && DataOf(entries)[key := entries[key].data] == DataOf(entries)
  {
  }

  /** A request to a table: a search, a search that creates, an insertion of data, the same without a search
      (HASH_NOSRCH), and a removal. */
  datatype Request =
    | Lookup(key: string)
    | Create(key: string)
    | Store(key: string, data: string)
    | StoreNew(key: string, data: string)
    | Delete(key: string)

  /** An insertion without a search is only for keys that are not there. */
  predicate Legal(m: map<string, Option<string>>, request: Request) {
    request.StoreNew? ==> request.key !in m
  }

  ghost predicate LegalRun(m: map<string, Option<string>>, requests: seq<Request>) {
    forall k :: 0 <= k < |requests| ==> Legal(Run(m, requests[..k]).0, requests[k])
  }

  /** The request on a map, and what it returns. */
  function Step(m: map<string, Option<string>>, request: Request): (map<string, Option<string>>, Option<string>) {
    match request
    case Lookup(key) => (m, if key in m then m[key] else None)
    case Create(key) => if key in m then (m, m[key]) else (m[key := None], None)
    case Store(key, data) => (m[key := Some(data)], None)
    case StoreNew(key, data) => (m[key := Some(data)], None)
    case Delete(key) => (m - {key}, if key in m then m[key] else None)
  }

  function Run(m: map<string, Option<string>>, requests: seq<Request>): (map<string, Option<string>>,
        seq<Option<string>>) {
    if requests == [] then (m, [])
    else
      var (m', outs) := Run(m, requests[..|requests| - 1]);
      var (m'', out) := Step(m', requests[|requests| - 1]);
      (m'', outs + [out])
  }

  twostate lemma StillBucketed(chains: seq<seq<Item>>, new n: nat)
    requires old(Bucketed(chains, n)) && forall x :: x in ItemsOf(chains) ==>
                                           old(allocated(x)) && x.khash == old(x.khash)
    ensures Bucketed(chains, n)
  {
    hide BucketOf;
    forall b, k | 0 <= b < n && 0 <= k < |chains[b]| ensures BucketOf(chains[b][k].khash, n) == b {
      assert chains[b][k] in ItemsOf(chains);
    }
  }

  lemma {:induction false} OneItemPerKey(table: map<string, Item>)
    requires forall key :: key in table ==> table[key].key == key
    ensures |table.Values| == |table|
    decreases |table|
  {
    if table == map[] {
      assert table.Values == {};
    } else {
      var key :| key in table;
      RemovedValues(table, key);
      OneItemPerKey(table - {key});
      assert table.Values == (table - {key}).Values + {table[key]};
    }
  }

  lemma RemovedValues(table: map<string, Item>, key: string)
    requires key in table && forall k :: k in table ==> table[k].key == k
    ensures (table - {key}).Values == table.Values - {table[key]} && |table - {key}| == |table| - 1
  {
    var t := table - {key};
    assert t.Keys == table.Keys - {key};
    forall x | x in table.Values && x != table[key] ensures x in t.Values {
      var k :| k in table && table[k] == x;
      assert t[k] == x;
    }
  }

  lemma EmptyChains(heads: seq<Item?>, chains: seq<seq<Item>>)
    requires |heads| == |chains| > 0 && (forall b :: 0 <= b < |heads| ==> heads[b] == null && chains[b] == [])
    ensures Links(heads, chains) && Bucketed(chains, |chains|) && ItemsOf(chains) == {}
  {
  }

  lemma NoItemsLeft(chains: seq<seq<Item>>)
    requires forall b :: 0 <= b < |chains| ==> chains[b] == []
    ensures ItemsOf(chains) == {}
  {
  }

  /** The loops of hash_rehash: items come off the old chains one by one, and go to the front of new ones. */
  method MoveAll(old_bucket_array: array<Item?>, osize: nat, e: array<Item?>, nsize: nat,
                 ghost chains: seq<seq<Item>>, ghost empty: seq<seq<Item>>,
                     ghost items: set<Item>) returns (ghost nc: seq<seq<Item>>)
    requires old_bucket_array.Length == osize && e.Length == nsize > 0 && e != old_bucket_array
    requires Links(old_bucket_array[..], chains) && Bucketed(chains, osize) && ItemsOf(chains) == items
    requires Links(e[..], empty) && Bucketed(empty, nsize) && ItemsOf(empty) == {}
    modifies e, items`next
    ensures Links(e[..], nc) && Bucketed(nc, nsize) && ItemsOf(nc) == items
  {
    hide Hash, BucketOf, Links, ItemsOf, Bucketed;
    nc := empty;
    ghost var rest, heads := chains, old_bucket_array[..];
    BucketedSize(rest, osize);
    BucketedSize(nc, nsize);
    for j := 0 to osize
      invariant |rest| == |heads| == osize && |nc| == nsize
      invariant Links(heads, rest) && Bucketed(rest, osize) && Links(e[..], nc) && Bucketed(nc, nsize)
      invariant ItemsOf(rest) + ItemsOf(nc) == items && ItemsOf(rest) !! ItemsOf(nc)
      invariant forall b :: 0 <= b < j ==> rest[b] == []
      invariant forall b :: j <= b < osize ==> heads[b] == old_bucket_array[b]
    {
      var item := old_bucket_array[j];
      while item != null
        invariant |rest| == |heads| == osize && |nc| == nsize
        invariant Links(heads, rest) && Bucketed(rest, osize) && Links(e[..], nc) && Bucketed(nc, nsize)
        invariant ItemsOf(rest) + ItemsOf(nc) == items && ItemsOf(rest) !! ItemsOf(nc)
        invariant forall b :: 0 <= b < j ==> rest[b] == []
        invariant forall b :: j < b < osize ==> heads[b] == old_bucket_array[b]
        invariant item == heads[j]
        decreases |rest[j]|
      {
        HeadIsFirst(heads, rest, j);
        LinksLess(heads, rest, osize, j);
        var next := item.next;
        rest, heads := rest[j := rest[j][1..]], heads[j := next];
        nc := MoveOne(item, e, nsize, nc, ItemsOf(nc));
        item := next;
      }
      HeadIsFirst(heads, rest, j);
    }
    NoItemsLeft(rest);
  }

  lemma BucketedSize(chains: seq<seq<Item>>, n: nat)
    requires Bucketed(chains, n)
    ensures |chains| == n
  {
  }

  lemma HeadIsFirst(heads: seq<Item?>, chains: seq<seq<Item>>, j: nat)
    requires Links(heads, chains) && j < |chains|
    ensures |heads| == |chains| && heads[j] == if chains[j] == [] then null else chains[j][0]
  {
  }

  /** item goes to the front of its chain. */
  method MoveOne(item: Item, e: array<Item?>, nsize: nat, ghost nc: seq<seq<Item>>,
        ghost own: set<Item>) returns (ghost more: seq<seq<Item>>)
    requires own == ItemsOf(nc) && e.Length == nsize > 0 && Links(e[..], nc) && Bucketed(nc, nsize)
             && item !in ItemsOf(nc)
    modifies e, item`next
    ensures Links(e[..], more) && Bucketed(more, nsize) && ItemsOf(more) == ItemsOf(nc) + {item} && |more| == nsize
  {
    hide Hash, BucketOf, Links, ItemsOf, Bucketed;
    var i := BucketOf(item.khash, nsize);
    BucketedSize(nc, nsize);
    item.next := e[i];
    LinksMore(e[..], nc, i, item);
    ItemsOfMore(nc, i, item);
    BucketedMore(nc, nsize, item);
    SetBucket(e, i, item);
    more := nc[i := [item] + nc[i]];
  }

  lemma BucketedMore(chains: seq<seq<Item>>, n: nat, x: Item)
    requires Bucketed(chains, n)
    ensures var b := BucketOf(x.khash, n); Bucketed(chains[b := [x] + chains[b]], n)
  {
    hide BucketOf;
  }

  // ---------- copying ----------

  /** y holds what x does. */
  ghost predicate ItemCopied(y: Item, x: Item)
    reads x, y
  {
    y.key == x.key && y.khash == x.khash && y.data == x.data && y.times_found == x.times_found
  }

  ghost predicate ChainCopied(d: seq<Item>, c: seq<Item>)
    reads c, d
  {
    |d| == |c| && forall k :: 0 <= k < |c| ==> ItemCopied(d[k], c[k])
  }

  ghost predicate ChainsCopied(nc: seq<seq<Item>>, chains: seq<seq<Item>>)
    reads ItemsOf(nc), ItemsOf(chains)
  {
    |nc| == |chains| && forall b :: 0 <= b < |chains| ==> ChainCopied(nc[b], chains[b])
  }

  /** copy_bucket_array */
  method CopyChain(ba: Item?, ghost c: seq<Item>) returns (new_bucket: Item?, ghost d: seq<Item>)
    requires Linked(ba, c)
    ensures Linked(new_bucket, d) && ChainCopied(d, c) && forall x :: x in d ==> fresh(x)
  {
    hide Linked;
    var n: Item?, e := null, ba;
    new_bucket, d := null, [];
    NoLinks();
    FirstLinked(ba, c);
    while e != null
      invariant |d| <= |c| && e == (if |d| < |c| then c[|d|] else null) && n == (if d == [] then null else d[|d| - 1])
      invariant Linked(new_bucket, d) && ChainCopied(d, c[..|d|]) && forall x :: x in d ==> fresh(x)
      decreases |c| - |d|
    {
      NextOf(ba, c, |d|);
      assert n != null ==> n in d;
      var copy := CopyItem(e);
      new_bucket := Append(new_bucket, d, n, copy);
      CopiedMore(d, c, copy);
      n, d, e := copy, d + [copy], e.next;
    }
    assert c[..|d|] == c;
  }

  method CopyItem(e: Item) returns (n: Item)
    ensures fresh(n) && n.next == null && ItemCopied(n, e)
  {
    n := new Item(e.key, e.khash, null);
    n.data, n.times_found := e.data, e.times_found;
  }

  /** A new item after n, which is the last one of the chain, or the first one if there is none. */
  method Append(head: Item?, ghost d: seq<Item>, n: Item?, x: Item) returns (more: Item?)
    requires Linked(head, d) && n == (if d == [] then null else d[|d| - 1]) && x !in d && x.next == null
    modifies (if n == null then {} else {n})`next
    ensures Linked(more, d + [x])
  {
    if n == null {
      more := x;
    } else {
      n.next := x;
      more := head;
    }
  }

  lemma NoLinks()
    ensures Linked(null, [])
  {
  }

  lemma FirstLinked(head: Item?, c: seq<Item>)
    requires Linked(head, c)
    ensures head == if c == [] then null else c[0]
  {
  }

  lemma CopiedMore(d: seq<Item>, c: seq<Item>, x: Item)
    requires |d| < |c| && ChainCopied(d, c[..|d|]) && ItemCopied(x, c[|d|])
    ensures ChainCopied(d + [x], c[..|d + [x]|])
  {
    forall k | 0 <= k < |d| ensures ItemCopied(d[k], c[k]) {
      assert c[..|d|][k] == c[k];
    }
  }

  /** The place of an item of a chain. */
  ghost function PlaceOf(c: seq<Item>, x: Item): (k: nat)
    requires x in c
    ensures k < |c| && c[k] == x
  {
    var k :| 0 <= k < |c| && c[k] == x;
    k
  }

  /** Every key with the item that stands where its item was copied from. */
  ghost function CopiedTable(table: map<string, Item>, chains: seq<seq<Item>>, n: nat,
        nc: seq<seq<Item>>): map<string, Item>
    requires |nc| == |chains| && forall b :: 0 <= b < |chains| ==> |nc[b]| == |chains[b]|
    requires 0 < n == |chains| && forall key :: key in table ==> table[key] in chains[BucketOf(Hash(key), n)]
  {
    map key | key in table :: var b := BucketOf(Hash(key), n); nc[b][PlaceOf(chains[b], table[key])]
  }

  lemma CopiedSize(chains: seq<seq<Item>>, nc: seq<seq<Item>>)
    requires ChainsCopied(nc, chains)
    ensures |nc| == |chains| && forall b :: 0 <= b < |chains| ==> |nc[b]| == |chains[b]|
  {
    forall b | 0 <= b < |chains| ensures |nc[b]| == |chains[b]| {
      assert ChainCopied(nc[b], chains[b]);
    }
  }

  lemma IndexedPlaces(table: map<string, Item>, chains: seq<seq<Item>>, n: nat)
    requires Indexed(table, chains, n)
    ensures 0 < n == |chains| && forall key :: key in table ==> table[key] in chains[BucketOf(Hash(key), n)]
  {
    hide Hash, BucketOf;
  }

  /** What the copied table has for the key of item k of chain b. */
  lemma CopiedAt(heads: seq<Item?>, table: map<string, Item>, chains: seq<seq<Item>>, n: nat, nc: seq<seq<Item>>,
        b: nat, k: nat)
    requires Links(heads, chains) && Indexed(table, chains, n) && b < n && b < |chains| && k < |chains[b]|
    requires |nc| == |chains| && forall b :: 0 <= b < |chains| ==> |nc[b]| == |chains[b]|
    requires 0 < n == |chains| && forall key :: key in table ==> table[key] in chains[BucketOf(Hash(key), n)]
    ensures var key := chains[b][k].key; key in table && CopiedTable(table, chains, n, nc)[key] == nc[b][k]
    ensures BucketOf(chains[b][k].khash, n) == b
  {
    hide Hash, BucketOf;
    var x := chains[b][k];
    assert x in table.Values && table[x.key] == x;
    assert Linked(heads[b], chains[b]);
    assert PlaceOf(chains[b], x) == k;
  }

  /** What the copied table has for a key. */
  lemma CopiedFor(table: map<string, Item>, chains: seq<seq<Item>>, n: nat, nc: seq<seq<Item>>, key: string)
    requires ChainsCopied(nc, chains) && key in table
    requires |nc| == |chains| && forall b :: 0 <= b < |chains| ==> |nc[b]| == |chains[b]|
    requires 0 < n == |chains| && forall key :: key in table ==> table[key] in chains[BucketOf(Hash(key), n)]
    ensures var t := CopiedTable(table, chains, n, nc);
            ItemCopied(t[key], table[key]) && t[key] in nc[BucketOf(Hash(key), n)]
  {
    hide Hash, BucketOf, ItemCopied;
    var b := BucketOf(Hash(key), n);
    assert ChainCopied(nc[b], chains[b]);
    assert ItemCopied(nc[b][PlaceOf(chains[b], table[key])], table[key]);
  }

  /** The copied chains hold the copied table. */
  lemma CopyIsIndexed(heads: seq<Item?>, table: map<string, Item>, chains: seq<seq<Item>>, n: nat, nc: seq<seq<Item>>)
    requires Links(heads, chains) && Indexed(table, chains, n) && ChainsCopied(nc, chains)
    requires |nc| == |chains| && forall b :: 0 <= b < |chains| ==> |nc[b]| == |chains[b]|
    requires 0 < n == |chains| && forall key :: key in table ==> table[key] in chains[BucketOf(Hash(key), n)]
    ensures var t := CopiedTable(table, chains, n, nc);
            && Indexed(t, nc, n) && t.Keys == table.Keys
            && forall key :: key in table ==> ItemCopied(t[key], table[key])
  {
    hide Hash, BucketOf, Links, CopiedTable, ChainsCopied;
    var t := CopiedTable(table, chains, n, nc);
    CopiedKeys(table, chains, n, nc);
    IndexedFacts(table, chains, n);
    forall b, k | 0 <= b < n && 0 <= k < |nc[b]| ensures nc[b][k] in t.Values && BucketOf(nc[b][k].khash, n) == b {
      CopiedAt(heads, table, chains, n, nc, b, k);
      CopiedFor(table, chains, n, nc, chains[b][k].key);
      assert table[chains[b][k].key] == chains[b][k];
    }
    forall key | key in table ensures ItemCopied(t[key], table[key]) && t[key] in nc[BucketOf(Hash(key), n)] {
      CopiedFor(table, chains, n, nc, key);
    }
  }

  lemma CopiedKeys(table: map<string, Item>, chains: seq<seq<Item>>, n: nat, nc: seq<seq<Item>>)
    requires |nc| == |chains| && forall b :: 0 <= b < |chains| ==> |nc[b]| == |chains[b]|
    requires 0 < n == |chains| && forall key :: key in table ==> table[key] in chains[BucketOf(Hash(key), n)]
    ensures CopiedTable(table, chains, n, nc).Keys == table.Keys
  {
    hide Hash, BucketOf;
  }
}
