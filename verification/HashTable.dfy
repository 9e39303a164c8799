// The chained hash table: an array of buckets, entries linked on the heap, rehashing into a table
// twice the size, and an iterator over all entries.

module HashTable {

  const INITIAL_SIZE := 4
  const LONG_MAX := 0x7fff_ffff_ffff_ffff

  // Up to this size a bucket index fits the source's int.
  const MAX_SIZE := 0x4000_0000

  // ---------------------------------------------------------------- powers of two

  /** Bitwise and. */
  function And(a: nat, b: nat): nat {
    if a == 0 || b == 0 then 0 else 2 * And(a / 2, b / 2) + (if a % 2 == 1 && b % 2 == 1 then 1 else 0)
  }

  predicate PowerOfTwo(n: nat) { n == 1 || (n > 1 && n % 2 == 0 && PowerOfTwo(n / 2)) }

  /** Masking with a power of two less one takes the remainder. */
  lemma {:induction false} MaskIsRemainder(h: nat, size: nat)
    requires PowerOfTwo(size)
    ensures And(h, size - 1) == h % size
  {
    if size > 1 {
      var m := size / 2;
      MaskIsRemainder(h / 2, m);
      assert (size - 1) / 2 == m - 1 && (size - 1) % 2 == 1;
      HalfRemainder(h, m);
      if h == 0 || size - 1 == 0 {
        assert h % size == 0;
      }
    }
  }

  lemma {:induction false} HalfRemainder(h: nat, m: nat)
    requires m > 0
    ensures h % (2 * m) == 2 * (h / 2 % m) + h % 2
  {
    var q, r := h / 2 / m, h / 2 % m;
    assert h / 2 == q * m + r;
    assert h == 2 * (q * m + r) + h % 2;
    var s := 2 * r + h % 2;
    assert h == q * (2 * m) + s && 0 <= s < 2 * m;
    RemainderIs(h, 2 * m, q, s);
  }

  lemma {:induction false} RemainderIs(h: int, d: int, q: int, s: int)
    requires d > 0 && h == q * d + s && 0 <= s < d
    ensures h % d == s
  {
    var n := h / d - q;
    assert n * d == s - h % d;
    MultipleIsFar(n, d);
  }

  lemma MultipleIsFar(n: int, d: int)
    requires d > 0
    ensures n > 0 ==> n * d >= d
    ensures n < 0 ==> n * d <= -d
  {
  }

  function Bucket(h: nat, size: nat): (b: nat)
    requires PowerOfTwo(size)
    ensures b < size && b == h % size
  {
    MaskIsRemainder(h, size);
    And(h, size - 1)
  }

  /** The least power of two, from 4 on, that is large enough; huge sizes give LONG_MAX, which is none. */
  method NextPower(size: nat) returns (i: nat)
    ensures size < LONG_MAX ==> PowerOfTwo(i) && INITIAL_SIZE <= i && size <= i && (i == INITIAL_SIZE || i / 2 < size)
    ensures size >= LONG_MAX ==> i == LONG_MAX && !PowerOfTwo(i)
  {
    if size >= LONG_MAX {
      return LONG_MAX;
    }
    i := INITIAL_SIZE;
    assert PowerOfTwo(2);
    while i < size
      invariant PowerOfTwo(i) && INITIAL_SIZE <= i && (i == INITIAL_SIZE || i / 2 < size)
    {
      i := i * 2;
    }
  }

  // ---------------------------------------------------------------- entries and chains

  class Entry<K, V> {
    const key: K
    var val: V
    var next: Entry?<K, V>

    constructor (key: K, val: V, next: Entry?<K, V>)
      ensures this.key == key && this.val == val && this.next == next
    {
      this.key, this.val, this.next := key, val, next;
    }
  }

  function At<K, V>(chain: seq<Entry<K, V>>, i: int): Entry?<K, V> {
    if 0 <= i < |chain| then chain[i] else null
  }

  ghost predicate Followed<K, V>(chain: seq<Entry<K, V>>, i: nat)
    requires i < |chain|
    reads chain[i]
  {
    chain[i].next == At(chain, i + 1)
  }

  ghost predicate Linked<K, V>(chain: seq<Entry<K, V>>)
    reads chain
  {
    forall i :: 0 <= i < |chain| ==> Followed(chain, i)
  }

  ghost predicate DistinctKeys<K, V>(chain: seq<Entry<K, V>>) {
    forall i, j :: 0 <= i < j < |chain| ==> chain[i].key != chain[j].key
  }

  // The table holds the heads of the chains, which are linked and lie in the region.
  ghost predicate Threaded<K, V>(table: array<Entry?<K, V>>, chains: seq<seq<Entry<K, V>>>, region: set<Entry<K, V>>)
    reads table, region
  {
    && table.Length == |chains|
    && (forall b, j :: 0 <= b < |chains| && 0 <= j < |chains[b]| ==> chains[b][j] in region)
    && forall b :: 0 <= b < |chains| ==> table[b] == At(chains[b], 0) && Linked(chains[b])
  }

  function Total<T>(chains: seq<seq<T>>): nat {
    if chains == [] then 0 else |chains[0]| + Total(chains[1..])
  }

  lemma {:induction false} TotalUpdate<T>(chains: seq<seq<T>>, b: nat, c: seq<T>)
    requires b < |chains|
    ensures Total(chains[b := c]) == Total(chains) - |chains[b]| + |c|
  {
    if b > 0 {
      TotalUpdate(chains[1..], b - 1, c);
      assert chains[b := c][1..] == chains[1..][b - 1 := c];
    } else {
      assert chains[b := c][1..] == chains[1..];
    }
  }

  lemma {:induction false} TotalAtLeast<T>(chains: seq<seq<T>>, b: nat)
    requires b < |chains|
    ensures |chains[b]| <= Total(chains)
  {
    if b > 0 {
      TotalAtLeast(chains[1..], b - 1);
    }
  }

  // An entry is in the bucket of its key, and is the entry of its key.
  ghost predicate Belongs<K, V>(hash: K -> nat, size: nat, index: map<K, Entry<K, V>>, b: nat, e: Entry<K, V>)
    requires PowerOfTwo(size)
  {
    e.key in index && index[e.key] == e && Bucket(hash(e.key), size) == b
  }

  ghost predicate ChainsBelong<K, V>(hash: K -> nat, chains: seq<seq<Entry<K, V>>>, index: map<K, Entry<K, V>>)
    requires PowerOfTwo(|chains|)
  {
    forall b, j :: 0 <= b < |chains| && 0 <= j < |chains[b]| ==> Belongs(hash, |chains|, index, b, chains[b][j])
  }

  ghost predicate AllChained<K(!new), V>(hash: K -> nat, chains: seq<seq<Entry<K, V>>>, index: map<K, Entry<K, V>>)
    requires PowerOfTwo(|chains|)
  {
    forall k :: k in index ==> index[k].key == k && index[k] in chains[Bucket(hash(k), |chains|)]
  }

  ghost predicate ChainsDistinct<K, V>(chains: seq<seq<Entry<K, V>>>) {
    forall b :: 0 <= b < |chains| ==> DistinctKeys(chains[b])
  }

  // The chains hold exactly the entries of the index, each in the bucket of its key.
  ghost predicate Filed<K(!new), V>(hash: K -> nat, chains: seq<seq<Entry<K, V>>>, index: map<K, Entry<K, V>>) {
    && PowerOfTwo(|chains|)
    && ChainsBelong(hash, chains, index) && ChainsDistinct(chains) && AllChained(hash, chains, index)
    && Total(chains) == |index|
  }

  lemma AddBelongs<K(!new), V>(hash: K -> nat, chains: seq<seq<Entry<K, V>>>,
                     index: map<K, Entry<K, V>>, b: nat, e: Entry<K, V>)
    requires PowerOfTwo(|chains|) && ChainsBelong(hash, chains, index) && e.key !in index
    requires b == Bucket(hash(e.key), |chains|)
    ensures ChainsBelong(hash, chains[b := [e] + chains[b]], index[e.key := e])
  {
    hide Bucket;
    var new', index' := chains[b := [e] + chains[b]], index[e.key := e];
    forall a, j | 0 <= a < |new'| && 0 <= j < |new'[a]|
      ensures Belongs(hash, |new'|, index', a, new'[a][j])
    {
      if a != b || j > 0 {
        assert new'[a][j] == chains[a][if a == b then j - 1 else j];
        assert Belongs(hash, |chains|, index, a, new'[a][j]);
      }
    }
  }

  lemma AddChains<K(!new), V>(hash: K -> nat, chains: seq<seq<Entry<K, V>>>,
                    index: map<K, Entry<K, V>>, b: nat, e: Entry<K, V>)
    requires PowerOfTwo(|chains|) && AllChained(hash, chains, index)
    requires b == Bucket(hash(e.key), |chains|)
    ensures AllChained(hash, chains[b := [e] + chains[b]], index[e.key := e])
  {
    hide Bucket;
    var c := [e] + chains[b];
    assert c[0] == e && forall i :: 0 <= i < |chains[b]| ==> chains[b][i] == c[i + 1];
  }

  lemma AddDistinct<K(!new), V>(hash: K -> nat, chains: seq<seq<Entry<K, V>>>,
                      index: map<K, Entry<K, V>>, b: nat, e: Entry<K, V>)
    requires PowerOfTwo(|chains|) && ChainsBelong(hash, chains, index) && e.key !in index
    requires ChainsDistinct(chains) && b < |chains|
    ensures ChainsDistinct(chains[b := [e] + chains[b]])
  {
    hide Bucket;
    var c := [e] + chains[b];
    forall i, j | 0 <= i < j < |c|
      ensures c[i].key != c[j].key
    {
      assert Belongs(hash, |chains|, index, b, chains[b][j - 1]);
      assert DistinctKeys(chains[b]);
    }
  }

  lemma FiledAdd<K(!new), V>(hash: K -> nat, chains: seq<seq<Entry<K, V>>>, index: map<K, Entry<K, V>>, e: Entry<K, V>)
    requires Filed(hash, chains, index) && e.key !in index
    ensures var b := Bucket(hash(e.key), |chains|);
            Filed(hash, chains[b := [e] + chains[b]], index[e.key := e])
  {
    hide Bucket, ChainsBelong, AllChained, ChainsDistinct;
    var b := Bucket(hash(e.key), |chains|);
    AddBelongs(hash, chains, index, b, e);
    AddChains(hash, chains, index, b, e);
    AddDistinct(hash, chains, index, b, e);
    TotalUpdate(chains, b, [e] + chains[b]);
  }

  function Without<T>(c: seq<T>, j: nat): (d: seq<T>)
    requires j < |c|
    ensures |d| == |c| - 1 && forall i :: 0 <= i < |d| ==> d[i] == c[if i < j then i else i + 1]
  {
    c[..j] + c[j + 1..]
  }

  lemma WithoutKeeps<T>(c: seq<T>, j: nat, x: T)
    requires j < |c| && x in c && x != c[j]
    ensures x in Without(c, j)
  {
    var i :| 0 <= i < |c| && c[i] == x;
    assert Without(c, j)[if i < j then i else i - 1] == x;
  }

  lemma DeleteBelongs<K(!new), V>(hash: K -> nat, chains: seq<seq<Entry<K, V>>>,
                        index: map<K, Entry<K, V>>, b: nat, j: nat)
    requires PowerOfTwo(|chains|) && ChainsBelong(hash, chains, index) && ChainsDistinct(chains)
    requires b < |chains| && j < |chains[b]|
    ensures ChainsBelong(hash, chains[b := Without(chains[b], j)], index - {chains[b][j].key})
  {
    hide Bucket;
    var key, new' := chains[b][j].key, chains[b := Without(chains[b], j)];
    assert Belongs(hash, |chains|, index, b, chains[b][j]);
    forall a, i | 0 <= a < |new'| && 0 <= i < |new'[a]|
      ensures Belongs(hash, |new'|, index - {key}, a, new'[a][i])
    {
      assert new'[a][i] == chains[a][if a == b && i >= j then i + 1 else i];
      assert Belongs(hash, |chains|, index, a, new'[a][i]);
      assert DistinctKeys(chains[b]);
    }
  }

  lemma DeleteChains<K(!new), V>(hash: K -> nat, chains: seq<seq<Entry<K, V>>>,
                       index: map<K, Entry<K, V>>, b: nat, j: nat)
    requires PowerOfTwo(|chains|) && AllChained(hash, chains, index)
    requires b < |chains| && j < |chains[b]|
    ensures AllChained(hash, chains[b := Without(chains[b], j)], index - {chains[b][j].key})
  {
    hide Bucket, Without;
    forall k | k in index && k != chains[b][j].key && Bucket(hash(k), |chains|) == b
      ensures index[k] in Without(chains[b], j)
    {
      WithoutKeeps(chains[b], j, index[k]);
    }
  }

  lemma {:induction false} FiledDelete<K(!new), V>(hash: K -> nat, chains: seq<seq<Entry<K, V>>>,
                                         index: map<K, Entry<K, V>>, b: nat, j: nat)
    requires Filed(hash, chains, index) && b < |chains| && j < |chains[b]|
    ensures Filed(hash, chains[b := Without(chains[b], j)], index - {chains[b][j].key})
    ensures chains[b][j].key in index
  {
    hide Bucket, AllChained, Without;
    var c, e := chains[b], chains[b][j];
    DeleteBelongs(hash, chains, index, b, j);
    DeleteChains(hash, chains, index, b, j);
    assert Belongs(hash, |chains|, index, b, e);
    TotalUpdate(chains, b, Without(c, j));
    assert index == (index - {e.key})[e.key := e];
  }

  // ---------------------------------------------------------------- links

  lemma LinkedPush<K, V>(e: Entry<K, V>, c: seq<Entry<K, V>>)
    requires Linked(c) && e.next == At(c, 0)
    ensures Linked([e] + c)
  {
    forall i | 0 <= i < |c| + 1
      ensures Followed([e] + c, i)
    {
      assert i > 0 ==> Followed(c, i - 1);
    }
  }

  ghost predicate NotChained<K, V>(e: Entry<K, V>, chains: seq<seq<Entry<K, V>>>) {
    forall b :: 0 <= b < |chains| ==> e !in chains[b]
  }

  lemma FiledNotChained<K(!new), V>(hash: K -> nat, chains: seq<seq<Entry<K, V>>>,
                          index: map<K, Entry<K, V>>, e: Entry<K, V>)
    requires Filed(hash, chains, index) && e.key !in index
    ensures NotChained(e, chains)
  {
    hide Bucket;
    forall b | 0 <= b < |chains|
      ensures e !in chains[b]
    {
      forall j | 0 <= j < |chains[b]|
        ensures chains[b][j] != e
      {
        assert Belongs(hash, |chains|, index, b, chains[b][j]);
      }
    }
  }

  /** Makes an entry the head of a bucket. */
  method PushFront<K, V>(table: array<Entry?<K, V>>, b: nat, e: Entry<K, V>, ghost chains: seq<seq<Entry<K, V>>>,
                         ghost region: set<Entry<K, V>>)
    requires Threaded(table, chains, region) && b < |chains| && NotChained(e, chains) && e in region
    modifies table, e`next
    ensures Threaded(table, chains[b := [e] + chains[b]], region)
  {
    e.next := table[b];
    table[b] := e;
    forall a | 0 <= a < |chains|
      ensures Linked(chains[a])
    {
      assert e !in chains[a];
    }
    LinkedPush(e, chains[b]);
  }

  lemma OneChain<K(!new), V>(hash: K -> nat, chains: seq<seq<Entry<K, V>>>, index: map<K, Entry<K, V>>, b: nat, j: nat)
    requires Filed(hash, chains, index) && b < |chains| && j < |chains[b]|
    ensures forall a :: 0 <= a < |chains| && a != b ==> chains[b][j] !in chains[a]
    ensures forall i :: 0 <= i < |chains[b]| && i != j ==> chains[b][i].key != chains[b][j].key
    ensures chains[b][j].key in index && index[chains[b][j].key] == chains[b][j]
  {
    hide Bucket;
    assert DistinctKeys(chains[b]);
    assert Belongs(hash, |chains|, index, b, chains[b][j]);
    forall a, i | 0 <= a < |chains| && 0 <= i < |chains[a]| && a != b
      ensures chains[a][i] != chains[b][j]
    {
      assert Belongs(hash, |chains|, index, a, chains[a][i]);
    }
  }

  /** Takes the j-th entry out of its bucket. */
  method Unlink<K(!new), V>(table: array<Entry?<K, V>>, b: nat, prev: Entry?<K, V>, e: Entry<K, V>, ghost j: nat,
                            ghost hash: K -> nat, ghost chains: seq<seq<Entry<K, V>>>, ghost index: map<K, Entry<K, V>>,
                            ghost region: set<Entry<K, V>>)
    requires Threaded(table, chains, region) && Filed(hash, chains, index)
    requires b < |chains| && j < |chains[b]| && e == chains[b][j] && prev == At(chains[b], j - 1)
    modifies table, region`next
    ensures Threaded(table, chains[b := Without(chains[b], j)], region)
    ensures e.next == old(e.next)
  {
    hide Filed;
    ghost var c := chains[b];
    assert Followed(c, j);
    OneChain(hash, chains, index, b, j);
    if prev != null {
      OneChain(hash, chains, index, b, j - 1);
      prev.next := e.next;
    } else {
      table[b] := e.next;
    }
    forall i | 0 <= i < |c| - 1
      ensures Followed(Without(c, j), i)
    {
      assert old(Followed(c, if i < j then i else i + 1));
    }
    forall a | 0 <= a < |chains| && a != b
      ensures Linked(chains[a])
    {
      assert old(Linked(chains[a]));
      assert prev != null ==> prev !in chains[a];
    }
  }

  // ---------------------------------------------------------------- rehashing

  lemma {:induction false} PowersApart(a: nat, b: nat)
    requires PowerOfTwo(a) && PowerOfTwo(b) && a < b
    ensures 2 * a <= b
  {
    if a > 1 {
      PowersApart(a / 2, b / 2);
    }
  }

  lemma InitialIsPower()
    ensures PowerOfTwo(INITIAL_SIZE)
  {
    assert PowerOfTwo(2);
  }

  lemma TwiceIsPower(n: nat)
    requires PowerOfTwo(n)
    ensures PowerOfTwo(n * 2)
  {
  }

  lemma JustLarge(n: nat, size: nat)
    requires PowerOfTwo(n) && PowerOfTwo(size) && INITIAL_SIZE <= n <= size && (size == INITIAL_SIZE || size / 2 < n)
    ensures size == n
  {
    if n < size {
      PowersApart(n, size);
    }
  }

  lemma {:induction false} PowersMultiply(a: nat, b: nat)
    requires PowerOfTwo(a) && PowerOfTwo(b)
    ensures PowerOfTwo(a * b)
  {
    if a > 1 {
      PowersMultiply(a / 2, b);
      DoubleProduct(a / 2, b);
    } else {
      assert a * b == b;
    }
  }

  lemma DoubleProduct(a: nat, b: nat)
    ensures 2 * a * b == 2 * (a * b) && 2 * a * b % 2 == 0 && 2 * a * b / 2 == a * b
  {
  }

  lemma LargestSize(n: nat, size: nat)
    requires n <= MAX_SIZE && PowerOfTwo(size) && (size == INITIAL_SIZE || size / 2 < n)
    ensures size <= MAX_SIZE
  {
    assert PowerOfTwo(2) && PowerOfTwo(4) && PowerOfTwo(8) && PowerOfTwo(16) && PowerOfTwo(32);
    PowersMultiply(32, 32);
    PowersMultiply(0x400, 0x400);
    PowersMultiply(0x400, 0x10_0000);
    if size > MAX_SIZE {
      PowersApart(MAX_SIZE, size);
    }
  }

  // The index with the entries of a chain added.
  ghost function WithAll<K, V>(index: map<K, Entry<K, V>>, c: seq<Entry<K, V>>): map<K, Entry<K, V>> {
    if c == [] then index else WithAll(index, c[..|c| - 1])[c[|c| - 1].key := c[|c| - 1]]
  }

  lemma {:induction false} WithAllIs<K, V>(index: map<K, Entry<K, V>>, c: seq<Entry<K, V>>)
    requires DistinctKeys(c)
    ensures forall k :: k in WithAll(index, c) <==> k in index || exists j :: 0 <= j < |c| && c[j].key == k
    ensures forall j :: 0 <= j < |c| ==> WithAll(index, c)[c[j].key] == c[j]
    ensures forall k :: k in index && (forall j :: 0 <= j < |c| ==> c[j].key != k) ==> WithAll(index, c)[k] == index[k]
  {
    if c != [] {
      WithAllIs(index, c[..|c| - 1]);
    }
  }

  ghost predicate NoneIn<K, V>(index: map<K, Entry<K, V>>, c: seq<Entry<K, V>>) {
    forall j :: 0 <= j < |c| ==> c[j].key !in index
  }

  lemma NextNotIn<K, V>(index: map<K, Entry<K, V>>, c: seq<Entry<K, V>>, j: nat)
    requires DistinctKeys(c) && NoneIn(index, c) && j < |c|
    ensures c[j].key !in WithAll(index, c[..j])
    ensures WithAll(index, c[..j + 1]) == WithAll(index, c[..j])[c[j].key := c[j]]
  {
    WithAllIs(index, c[..j]);
    assert c[..j + 1][..j] == c[..j];
  }

  /** Moves one entry into the new table. */
  method MoveEntry<K(!new), V>(hash: K -> nat, newTable: array<Entry?<K, V>>, he: Entry<K, V>,
                               ghost chains: seq<seq<Entry<K, V>>>, ghost index: map<K, Entry<K, V>>,
                               ghost region: set<Entry<K, V>>)
    returns (ghost newChains: seq<seq<Entry<K, V>>>)
    requires Threaded(newTable, chains, region) && Filed(hash, chains, index)
    requires he.key !in index && he in region
    modifies newTable, he`next
    ensures Threaded(newTable, newChains, region) && Filed(hash, newChains, index[he.key := he])
    ensures |newChains| == |chains|
  {
    hide Bucket, AllChained, ChainsBelong, ChainsDistinct;
    var h := Bucket(hash(he.key), newTable.Length);
    FiledNotChained(hash, chains, index, he);
    FiledAdd(hash, chains, index, he);
    PushFront(newTable, h, he, chains, region);
    newChains := chains[h := [he] + chains[h]];
  }

  /** Moves a whole bucket of the old table. */
  method MoveChain<K(!new), V>(hash: K -> nat, newTable: array<Entry?<K, V>>, head: Entry?<K,
                     V>, ghost c: seq<Entry<K, V>>,
                               ghost chains: seq<seq<Entry<K, V>>>, ghost index: map<K, Entry<K, V>>,
                               ghost region: set<Entry<K, V>>)
    returns (count: nat, ghost newChains: seq<seq<Entry<K, V>>>)
    requires Threaded(newTable, chains, region) && Filed(hash, chains, index)
    requires Linked(c) && head == At(c, 0) && DistinctKeys(c) && NoneIn(index, c)
    requires forall j :: 0 <= j < |c| ==> c[j] in region
    modifies newTable, (set e | e in c)`next
    ensures Threaded(newTable, newChains, region) && Filed(hash, newChains, WithAll(index, c))
    ensures count == |c|
  {
    hide Filed, Threaded, WithAll, NoneIn;
    var he := head;
    count, newChains := 0, chains;
    assert WithAll(index, c[..0]) == index by {
      WithAllIs(index, c[..0]);
    }
    while he != null
      invariant count <= |c| && he == At(c, count)
      invariant forall i :: count <= i < |c| ==> Followed(c, i)
      invariant Threaded(newTable, newChains, region) && Filed(hash, newChains, WithAll(index, c[..count]))
      decreases |c| - count
    {
      NextNotIn(index, c, count);
      assert Followed(c, count);
      var nextHe := he.next;
      newChains := MoveEntry(hash, newTable, he, newChains, WithAll(index, c[..count]), region);
      he := nextHe;
      count := count + 1;
    }
    assert c[..|c|] == c;
  }

  // What has been moved when the buckets below i have been: the entries of their keys.
  ghost predicate MovedBelow<K(!new), V>(hash: K -> nat, size: nat, index: map<K, Entry<K, V>>,
                               moved: map<K, Entry<K, V>>, i: nat)
    requires PowerOfTwo(size)
  {
    forall k :: (k in moved <==> k in index && Bucket(hash(k), size) < i) && (k in moved ==> moved[k] == index[k])
  }

  lemma ChainMoved<K(!new), V>(hash: K -> nat, chains: seq<seq<Entry<K, V>>>, index: map<K, Entry<K, V>>,
                               moved: map<K, Entry<K, V>>, i: nat)
    requires Filed(hash, chains, index) && i < |chains| && MovedBelow(hash, |chains|, index, moved, i)
    ensures DistinctKeys(chains[i]) && NoneIn(moved, chains[i])
    ensures MovedBelow(hash, |chains|, index, WithAll(moved, chains[i]), i + 1)
  {
    hide Bucket, WithAll;
    var c := chains[i];
    forall j | 0 <= j < |c|
      ensures c[j].key !in moved && Belongs(hash, |chains|, index, i, c[j])
    {
      assert Belongs(hash, |chains|, index, i, c[j]);
    }
    WithAllIs(moved, c);
    var all := WithAll(moved, c);
    forall k
      ensures (k in all <==> k in index && Bucket(hash(k), |chains|) < i + 1) && (k in all ==> all[k] == index[k])
    {
      if k in index && Bucket(hash(k), |chains|) == i {
        var j :| 0 <= j < |c| && c[j] == index[k];
        assert c[j].key == k;
      }
    }
  }

  lemma {:induction false} TotalZero<T>(chains: seq<seq<T>>, b: nat)
    requires Total(chains) == 0 && b < |chains|
    ensures chains[b] == []
  {
    TotalAtLeast(chains, b);
  }

  lemma {:induction false} AllMoved<K(!new), V>(hash: K -> nat, chains: seq<seq<Entry<K, V>>>,
                                      index: map<K, Entry<K, V>>,
                             moved: map<K, Entry<K, V>>, i: nat)
    requires Filed(hash, chains, index) && i <= |chains| && MovedBelow(hash, |chains|, index, moved, i)
    requires Total(chains[i..]) == 0
    ensures moved == index
  {
    hide Bucket;
    forall b | i <= b < |chains|
      ensures chains[b] == []
    {
      TotalZero(chains[i..], b - i);
    }
  }

  lemma {:induction false} TotalEmpty<T>(chains: seq<seq<T>>)
    requires forall b :: 0 <= b < |chains| ==> chains[b] == []
    ensures Total(chains) == 0
  {
    if chains != [] {
      TotalEmpty(chains[1..]);
    }
  }

  lemma EmptyFiled<K(!new), V>(hash: K -> nat, n: nat, chains: seq<seq<Entry<K, V>>>)
    requires PowerOfTwo(n) && |chains| == n && forall b :: 0 <= b < n ==> chains[b] == []
    ensures Filed(hash, chains, map[])
  {
    TotalEmpty(chains);
  }

  lemma FiledKeys<K(!new), V>(hash: K -> nat, chains: seq<seq<Entry<K, V>>>, index: map<K, Entry<K, V>>)
    requires Filed(hash, chains, index)
    ensures forall k :: k in index ==> index[k].key == k
  {
  }

  lemma EmptyThreaded<K, V>(table: array<Entry?<K, V>>, chains: seq<seq<Entry<K, V>>>, region: set<Entry<K, V>>)
    requires table.Length == |chains|
    requires forall b :: 0 <= b < |chains| ==> chains[b] == [] && table[b] == null
    ensures Threaded(table, chains, region)
  {
  }

  lemma ThreadedSize<K, V>(table: array<Entry?<K, V>>, chains: seq<seq<Entry<K, V>>>, region: set<Entry<K, V>>)
    requires Threaded(table, chains, region)
    ensures |chains| == table.Length
  {
  }

  lemma ThreadedMore<K, V>(table: array<Entry?<K, V>>, chains: seq<seq<Entry<K, V>>>, region: set<Entry<K, V>>,
                           more: set<Entry<K, V>>)
    requires Threaded(table, chains, region) && region <= more
    ensures Threaded(table, chains, more)
  {
  }

  lemma NothingMoved<K(!new), V>(hash: K -> nat, size: nat, index: map<K, Entry<K, V>>)
    requires PowerOfTwo(size)
    ensures MovedBelow(hash, size, index, map[], 0)
  {
  }

  lemma FiledCounts<K(!new), V>(hash: K -> nat, chains: seq<seq<Entry<K, V>>>, index: map<K, Entry<K, V>>)
    requires Filed(hash, chains, index)
    ensures Total(chains) == |index|
  {
  }

  lemma ChainsApart<K(!new), V>(hash: K -> nat, chains: seq<seq<Entry<K, V>>>, index: map<K, Entry<K, V>>, b: nat)
    requires Filed(hash, chains, index) && b < |chains|
    ensures forall a, j :: 0 <= a < |chains| && a != b && 0 <= j < |chains[b]| ==> chains[b][j] !in chains[a]
  {
    forall a, j | 0 <= a < |chains| && a != b && 0 <= j < |chains[b]|
      ensures chains[b][j] !in chains[a]
    {
      OneChain(hash, chains, index, b, j);
    }
  }

  // The chains are those before without the j-th entry of one, which has the key.
  ghost predicate TakenOut<K, V>(was: seq<seq<Entry<K, V>>>, h: nat, j: nat, key: K, now: seq<seq<Entry<K, V>>>) {
    h < |was| && j < |was[h]| && was[h][j].key == key && now == was[h := Without(was[h], j)]
  }

  // ---------------------------------------------------------------- the table

  class Dict<K(!new, ==), V> {
    const hash: K -> nat
    var table: array<Entry?<K, V>>
    var size: nat
    var sizemask: nat
    var used: nat
    ghost var chains: seq<seq<Entry<K, V>>>
    ghost var index: map<K, Entry<K, V>>
    ghost var region: set<Entry<K, V>>

    // The size is 0 or a power of two; every entry is chained in the bucket its hash selects; used
    // counts the entries and does not exceed the size.
    ghost predicate Valid()
      reads this, table, region
    {
      && table.Length == size && Threaded(table, chains, region)
      && sizemask == (if size == 0 then 0 else size - 1)
      && used == |index| <= size <= MAX_SIZE
      && (size == 0 || (PowerOfTwo(size) && INITIAL_SIZE <= size && Filed(hash, chains, index)))
      && forall k :: k in index ==> index[k] in region
    }

    /** The map the table stands for. */
    ghost function Contents(): map<K, V>
      requires Valid()
      reads this, table, region
    {
      map k | k in index :: index[k].val
    }

    constructor (hash: K -> nat)
      ensures Valid() && Contents() == map[] && size == 0 && this.hash == hash && region == {}
    {
      this.hash, size, sizemask, used := hash, 0, 0, 0;
      table := new Entry?<K, V>[0];
      chains, index, region := [], map[], {};
    }

    // What a search that has passed a whole bucket knows.
    lemma {:induction false} Absent(key: K)
      requires Valid() && size > 0
      requires forall e :: e in chains[Bucket(hash(key), size)] ==> e.key != key
      ensures key !in index
    {
    }

    method Find(key: K) returns (he: Entry?<K, V>)
      requires Valid()
      ensures he == if key in index then index[key] else null
    {
      hide Bucket;
      if size == 0 {
        return null;
      }
      var h := Bucket(hash(key), size);
      ghost var c, j := chains[h], 0;
      he := table[h];
      while he != null
        invariant 0 <= j <= |c| && he == At(c, j)
        invariant forall i :: 0 <= i < j ==> c[i].key != key
        decreases |c| - j
      {
        assert Followed(c, j);
        if he.key == key {
          OneChain(hash, chains, index, h, j);
          return;
        }
        he := he.next;
        j := j + 1;
      }
      Absent(key);
    }

    twostate lemma FewerContents(key: K)
      requires old(Valid()) && Valid() && index == old(index) - {key} && region == old(region)
      requires forall e :: e in region ==> e.val == old(e.val)
      ensures Contents() == old(Contents()) - {key}
    {
      hide Filed, Threaded;
      assert old(Contents()).Keys == old(index).Keys;
    }

    twostate lemma MoreContents(key: K, new entry: Entry<K, V>)
      requires old(Valid()) && Valid() && index == old(index)[key := entry] && old(region) <= region
      requires forall e :: e in old(region) ==> e.val == old(e.val)
      ensures Contents() == old(Contents())[key := entry.val]
    {
      hide Filed, Threaded;
    }

    twostate lemma SameContents()
      requires old(Valid()) && Valid() && index == old(index) && region == old(region)
      requires forall e :: e in region ==> e.val == old(e.val)
      ensures Contents() == old(Contents())
    {
      hide Filed, Threaded;
    }

    lemma NotThere(key: K)
      requires Valid() && key !in index
      ensures index == index - {key} && Contents() == Contents() - {key}
    {
      hide Filed, Threaded;
    }

    /** Takes the j-th entry of a bucket out of the table. */
    method RemoveAt(h: nat, prevde: Entry?<K, V>, de: Entry<K, V>, ghost j: nat)
      requires Valid() && size > 0 && h < size
      requires j < |chains[h]| && de == chains[h][j] && prevde == At(chains[h], j - 1)
      modifies this`used, this`chains, this`index, table, region`next
      ensures Valid() && de.key in old(index) && index == old(index) - {de.key}
      ensures Contents() == old(Contents()) - {de.key}
      ensures TakenOut(old(chains), h, j, de.key, chains)
    {
      hide Bucket, Filed, Without, Contents;
      FiledDelete(hash, chains, index, h, j);
      Unlink(table, h, prevde, de, j, hash, chains, index, region);
      assert index == (index - {de.key})[de.key := index[de.key]];
      used := used - 1;
      chains, index := chains[h := Without(chains[h], j)], index - {de.key};
      FewerContents(de.key);
    }

    /** Removes a key; h and j say where its entry was. */
    method Delete(key: K) returns (ok: bool, ghost h: nat, ghost j: nat)
      requires Valid()
      modifies this`used, this`chains, this`index, table, region`next
      ensures Valid() && (ok <==> key in old(index)) && index == old(index) - {key}
      ensures Contents() == old(Contents()) - {key}
      ensures if ok then TakenOut(old(chains), h, j, key, chains) else chains == old(chains)
    {
      hide Bucket, Filed, Contents, TakenOut;
      h, j := 0, 0;
      if size == 0 {
        NotThere(key);
        return false, h, j;
      }
      var bucket := Bucket(hash(key), size);
      ghost var c := chains[bucket];
      var de := table[bucket];
      var prevde: Entry?<K, V> := null;
      h := bucket;
      while de != null
        invariant 0 <= j <= |c| && de == At(c, j) && prevde == At(c, j - 1)
        invariant forall i :: 0 <= i < j ==> c[i].key != key
        decreases |c| - j
      {
        assert Followed(c, j);
        if de.key == key {
          OneChain(hash, chains, index, bucket, j);
          RemoveAt(bucket, prevde, de, j);
          return true, h, j;
        }
        prevde := de;
        de := de.next;
        j := j + 1;
      }
      Absent(key);
      NotThere(key);
      return false, h, j;
    }

    /** Moves every entry into a new table large enough for n; refused when n is below what is held. */
    method Expand(n: nat) returns (ok: bool)
      requires Valid() && n <= MAX_SIZE
      modifies this`table, this`size, this`sizemask, this`used, this`chains, region`next
      ensures Valid() && used == old(used) && Contents() == old(Contents())
      ensures ok <==> used <= n
      ensures ok ==> PowerOfTwo(size) && n <= size && INITIAL_SIZE <= size && (size == INITIAL_SIZE || size / 2 < n)
      ensures ok ==> fresh(table)
      ensures !ok ==> table == old(table) && size == old(size) && chains == old(chains)
    {
      hide Bucket, Filed, Threaded, Contents;
      var realsize := NextPower(n);
      if used > n {
        return false;
      }
      LargestSize(n, realsize);
      var newTable := new Entry?<K, V>[realsize](_ => null);
      ghost var empty: seq<seq<Entry<K, V>>> := seq(realsize, _ => []);
      EmptyFiled(hash, realsize, empty);
      EmptyThreaded(newTable, empty, region);
      var newUsed := used;
      ghost var newChains := MoveAll(newTable, empty);
      Install(newTable, newUsed, newChains);
      SameContents();
      return true;
    }

    /** Puts a new table, into which everything has been moved, in the place of the old one. */
    method Install(newTable: array<Entry?<K, V>>, newUsed: nat, ghost newChains: seq<seq<Entry<K, V>>>)
      requires PowerOfTwo(newTable.Length) && Filed(hash, newChains, index) && Threaded(newTable, newChains, region)
      requires newUsed == |index| <= newTable.Length <= MAX_SIZE && INITIAL_SIZE <= newTable.Length
      requires forall k :: k in index ==> index[k] in region
      modifies this`table, this`size, this`sizemask, this`used, this`chains
      ensures Valid() && table == newTable && size == newTable.Length && used == newUsed
    {
      hide Filed, Threaded;
      assert Filed(hash, newChains, index) && Threaded(newTable, newChains, region);
      assert |newChains| == newTable.Length by {
        ThreadedSize(newTable, newChains, region);
      }
      table, size, sizemask, chains := newTable, newTable.Length, newTable.Length - 1, newChains;
      used := newUsed;
    }

    /** The rehashing loop, which stops as soon as every entry has been moved. */
    method MoveAll(newTable: array<Entry?<K, V>>, ghost empty: seq<seq<Entry<K, V>>>)
      returns (ghost newChains: seq<seq<Entry<K, V>>>)
      requires Valid() && newTable != table
      requires Threaded(newTable, empty, region) && Filed(hash, empty, map[])
      modifies this`used, newTable, region`next
      ensures Threaded(newTable, newChains, region) && Filed(hash, newChains, index)
      ensures used == 0
    {
      hide Bucket, Filed, WithAll, NoneIn, MovedBelow;
      newChains := empty;
      if size == 0 {
        assert index == map[];
        return;
      }
      ghost var moved: map<K, Entry<K, V>> := map[];
      assert MovedBelow(hash, size, index, moved, 0) && Total(chains[0..]) == used by {
        NothingMoved(hash, size, index);
        assert chains[0..] == chains;
        FiledCounts(hash, chains, index);
      }
      var i := 0;
      while i < size && used > 0
        invariant i <= size && MovedBelow(hash, size, index, moved, i) && used == Total(chains[i..])
        invariant Threaded(newTable, newChains, region) && Filed(hash, newChains, moved)
        invariant forall b :: i <= b < size ==> table[b] == At(chains[b], 0) && Linked(chains[b])
      {
        ChainMoved(hash, chains, index, moved, i);
        ChainsApart(hash, chains, index, i);
        var count;
        count, newChains := MoveChain(hash, newTable, table[i], chains[i], newChains, moved, region);
        forall b | i < b < size
          ensures Linked(chains[b])
        {
        }
        assert chains[i..][1..] == chains[i + 1..];
        used := used - count;
        moved := WithAll(moved, chains[i]);
        i := i + 1;
      }
      assert i == size ==> chains[i..] == [];
      AllMoved(hash, chains, index, moved, i);
    }

    /** A table that is missing gets the initial size, a full one is doubled. */
    method ExpandIfNeeded()
      requires Valid() && used <= MAX_SIZE / 2
      modifies this`table, this`size, this`sizemask, this`used, this`chains, region`next
      ensures Valid() && used == old(used) < size && Contents() == old(Contents())
      ensures size == if old(size) == 0 then INITIAL_SIZE else if old(used) == old(size) then 2 * old(size)
        else old(size)
      ensures table == old(table) || fresh(table)
    {
      hide Filed, Threaded, Contents, PowerOfTwo;
      if size == 0 {
        InitialIsPower();
        var _ := Expand(INITIAL_SIZE);
        JustLarge(INITIAL_SIZE, size);
      } else if used == size {
        ghost var twice := size * 2;
        TwiceIsPower(size);
        var _ := Expand(size * 2);
        JustLarge(twice, size);
      }
    }

    /** The bucket for a new key, in a table that has room for it; none when the key is there. */
    method KeyIndex(key: K) returns (i: int)
      requires Valid() && used <= MAX_SIZE / 2
      modifies this`table, this`size, this`sizemask, this`used, this`chains, region`next
      ensures Valid() && used == old(used) < size && Contents() == old(Contents())
      ensures table == old(table) || fresh(table)
      ensures i == if key in index then -1 else Bucket(hash(key), size)
    {
      hide Bucket, Filed, Threaded, Contents;
      ExpandIfNeeded();
      var he := Find(key);
      return if he != null then -1 else Bucket(hash(key), size);
    }

    /** Puts an entry for a new key into its bucket. */
    method AddAt(key: K, val: V, i: nat)
      requires Valid() && used < size && key !in index && i == Bucket(hash(key), size)
      modifies this`used, this`chains, this`index, this`region, table
      ensures Valid() && fresh(region - old(region))
      ensures Contents() == old(Contents())[key := val]
    {
      hide Bucket, Filed, Threaded, Contents;
      ThreadedSize(table, chains, region);
      var entry := new Entry(key, val, table[i]);
      FiledAdd(hash, chains, index, entry);
      FiledNotChained(hash, chains, index, entry);
      ThreadedMore(table, chains, region, region + {entry});
      PushFront(table, i, entry, chains, region + {entry});
      used := used + 1;
      chains, index, region := chains[i := [entry] + chains[i]], index[key := entry], region + {entry};
      MoreContents(key, entry);
    }

    /** Adds a key; refused when it is there already. */
    method Add(key: K, val: V) returns (ok: bool)
      requires Valid() && used <= MAX_SIZE / 2
      modifies this, table, region`next
      ensures Valid() && (table == old(table) || fresh(table)) && fresh(region - old(region))
      ensures ok <==> key !in old(Contents())
      ensures Contents() == if ok then old(Contents())[key := val] else old(Contents())
    {
      hide Bucket, Filed, Threaded;
      var i := KeyIndex(key);
      assert key in index <==> key in Contents();
      if i == -1 {
        return false;
      }
      AddAt(key, val, i);
      return true;
    }

    method SetVal(ghost key: K, entry: Entry<K, V>, val: V)
      requires Valid() && key in index && index[key] == entry
      modifies entry`val
      ensures Valid() && Contents() == old(Contents())[key := val]
    {
      hide Bucket, Filed;
      assert forall k :: k in index ==> index[k].key == k by {
        FiledKeys(hash, chains, index);
      }
      entry.val := val;
      forall b | 0 <= b < size
        ensures Linked(chains[b])
      {
        forall i | 0 <= i < |chains[b]|
          ensures Followed(chains[b], i)
        {
          assert old(Linked(chains[b]) && Followed(chains[b], i));
        }
      }
    }

    /** Sets a key's value, adding the key when it is new; true when it was. */
    method Replace(key: K, val: V) returns (added: bool)
      requires Valid() && used <= MAX_SIZE / 2
      modifies this, table, region
      ensures Valid() && (table == old(table) || fresh(table)) && fresh(region - old(region))
      ensures added <==> key !in old(Contents())
      ensures Contents() == old(Contents())[key := val]
    {
      hide Bucket, Filed, Threaded;
      added := Add(key, val);
      if !added {
        assert key in Contents();
        var entry := Find(key);
        SetVal(key, entry, val);
      }
    }
  }

  // ---------------------------------------------------------------- iterating

  function Flatten<T>(chains: seq<seq<T>>): (all: seq<T>)
    ensures |all| == Total(chains)
  {
    if chains == [] then [] else chains[0] + Flatten(chains[1..])
  }

  lemma {:induction false} FlattenHolds<T>(chains: seq<seq<T>>, x: T)
    ensures x in Flatten(chains) <==> exists b :: 0 <= b < |chains| && x in chains[b]
  {
    if chains != [] {
      FlattenHolds(chains[1..], x);
      if b :| 0 <= b < |chains| && x in chains[b] {
        if b > 0 {
          assert x in chains[1..][b - 1];
        }
      }
    }
  }

  lemma FlattenFrom<T>(chains: seq<seq<T>>, b: nat)
    requires b < |chains|
    ensures Flatten(chains[b..]) == chains[b] + Flatten(chains[b + 1..])
  {
    assert chains[b..][1..] == chains[b + 1..];
  }

  // What follows a place in a bucket, or the whole bucket.
  ghost function Later<T>(chains: seq<seq<T>>, b: int, place: Place): seq<T>
    requires -1 <= b && (place.In? ==> 0 <= b < |chains| && place.j <= |chains[b]|)
  {
    (if place.In? then chains[b][place.j..] else []) + if b + 1 <= |chains| then Flatten(chains[b + 1..]) else []
  }

  datatype Place = After | In(j: nat)

  lemma LaterNone<T>(chains: seq<seq<T>>, b: int)
    requires |chains| <= b + 1
    ensures Later(chains, b, After) == []
  {
  }

  lemma LaterBucket<T>(chains: seq<seq<T>>, b: int)
    requires -1 <= b && b + 1 < |chains|
    ensures Later(chains, b, After) == Later(chains, b + 1, In(0))
  {
    var c := b + 1;
    FlattenFrom(chains, c);
    assert chains[c][0..] == chains[c];
  }

  lemma LaterDone<T>(chains: seq<seq<T>>, b: int, j: nat)
    requires 0 <= b < |chains| && j <= |chains[b]|
    ensures j == |chains[b]| ==> Later(chains, b, In(j)) == Later(chains, b, After)
    ensures j < |chains[b]| ==> Later(chains, b, In(j)) == [chains[b][j]] + Later(chains, b, In(j + 1))
  {
  }

  // Taking out the entry before the place leaves the rest of the way as it was.
  lemma LaterWithout<T>(chains: seq<seq<T>>, b: int, j: nat)
    requires 0 <= b < |chains| && 0 < j <= |chains[b]|
    ensures Later(chains[b := Without(chains[b], j - 1)], b, In(j - 1)) == Later(chains, b, In(j))
  {
    assert chains[b := Without(chains[b], j - 1)][b + 1..] == chains[b + 1..];
  }

  // An iterator: a bucket, the entry it has returned from it, and the one that followed.
  class Iterator<K(!new, ==), V> {
    const ht: Dict<K, V>
    var index: int
    var entry: Entry?<K, V>
    var nextEntry: Entry?<K, V>
    ghost var place: Place         // where the next entry is in its bucket

    ghost predicate Stands()
      reads this, ht
    {
      && -1 <= index && |ht.chains| == ht.size && (entry != null <==> place.In?)
      && (place.In? ==> 0 <= index < ht.size && place.j <= |ht.chains[index]|)
      && (place.In? ==> nextEntry == At(ht.chains[index], place.j))
    }

    /** The entries still to come. */
    ghost function Ahead(): seq<Entry<K, V>>
      requires Stands()
      reads this, ht
    {
      Later(ht.chains, index, place)
    }

    constructor (ht: Dict<K, V>)
      requires ht.Valid()
      ensures this.ht == ht && Stands() && Ahead() == Flatten(ht.chains)
    {
      this.ht, index, entry, nextEntry, place := ht, -1, null, null, After;
      new;
      assert ht.chains[0..] == ht.chains;
    }

    method Next() returns (e: Entry?<K, V>)
      requires ht.Valid() && Stands()
      modifies this
      ensures Stands() && e == entry && e == At(old(Ahead()), 0)
      ensures Ahead() == if e == null then [] else old(Ahead())[1..]
      ensures e != null ==> Holds()
    {
      hide Later, Filed;
      ghost var chains, all := ht.chains, Ahead();
      while true
        invariant Stands() && Later(chains, index, place) == all
        decreases ht.size - index, entry != null
      {
        if entry == null {
          index := index + 1;
          if index >= ht.size {
            LaterNone(chains, index - 1);
            LaterNone(chains, index);
            return null;
          }
          LaterBucket(chains, index - 1);
          entry, place := ht.table[index], In(0);
        } else {
          entry := nextEntry;
        }
        LaterDone(chains, index, place.j);
        if entry != null {
          assert Followed(chains[index], place.j);
          nextEntry, place := entry.next, In(place.j + 1);
          return entry;
        }
        place := After;
      }
    }

    // The entry returned last is still in the table.
    ghost predicate Holds()
      reads this, ht
    {
      && Stands() && place.In? && place.j > 0
      && ht.chains[index][place.j - 1] == entry
    }

    /** Deletes the entry that was just returned, as users of an iterator may: the rest of the way is not
        affected. */
    method DeleteReturned()
      requires ht.Valid() && Holds()
      modifies this`place, ht`used, ht`chains, ht`index, ht.table, ht.region`next
      ensures ht.Valid() && Stands() && Ahead() == old(Ahead())
      ensures ht.Contents() == old(ht.Contents()) - {entry.key}
    {
      hide Later, Filed, Threaded, Without, Dict.Contents;
      ghost var chains, b, p := ht.chains, index, place.j;
      OneChain(ht.hash, chains, ht.index, b, p - 1);
      SameEntry(ht.hash, chains, ht.index, b, p - 1);
      var _, h, j := ht.Delete(entry.key);
      assert ht.chains == chains[b := Without(chains[b], p - 1)];
      LaterWithout(chains, b, p);
      place := In(p - 1);
    }

    // The iteration has visited some keys and has the rest of the entries ahead.
    ghost predicate UnderWay(all: seq<Entry<K, V>>, visited: seq<K>, was: map<K, V>, marked: set<K>)
      reads this, ht, ht.table, ht.region
    {
      ht.Valid() && Stands() && Swept(all, visited, was, ht.Contents(), marked) && Ahead() == all[|visited|..]
    }

    lemma {:induction false} Begins(all: seq<Entry<K, V>>, was: map<K, V>, marked: set<K>)
      requires ht.Valid() && Stands() && Ahead() == all && was == ht.Contents()
      ensures UnderWay(all, [], was, marked)
    {
      SweptNone(all, was, marked);
      assert all[0..] == all;
    }

    lemma Ends(all: seq<Entry<K, V>>, visited: seq<K>, was: map<K, V>, marked: set<K>, index: map<K, Entry<K, V>>)
      requires UnderWay(all, visited, was, marked) && |visited| == |all|
      requires Covers(all, index) && index.Keys == was.Keys
      ensures ht.Valid() && |visited| == |index| && ht.Contents() == was - marked
      ensures forall k :: k in visited <==> k in was
    {
      SweptAll(all, visited, was, ht.Contents(), marked, index);
    }

    /** One turn of a loop over the table: the next entry, deleted at once when its key is marked. */
    method Visit(marked: set<K>, ghost all: seq<Entry<K, V>>, ghost visited: seq<K>, ghost was: map<K, V>)
      returns (e: Entry?<K, V>)
      requires UnderWay(all, visited, was, marked)
      modifies this, ht`used, ht`chains, ht`index, ht.table, ht.region`next
      ensures if e == null then |visited| == |all| && UnderWay(all, visited, was, marked)
              else |visited| < |all| && UnderWay(all, visited + [e.key], was, marked)
    {
      hide Dict.Valid, Dict.Contents, Ahead, Stands, Holds;
      e := Next();
      if e != null {
        SweptStep(all, visited, was, ht.Contents(), marked);
        if e.key in marked {
          DeleteReturned();
        }
      }
    }
  }

  lemma SameEntry<K(!new), V>(hash: K -> nat, chains: seq<seq<Entry<K, V>>>, index: map<K, Entry<K, V>>, b: nat, j: nat)
    requires Filed(hash, chains, index) && b < |chains| && j < |chains[b]|
    ensures forall a, i ::
              0 <= a < |chains| && 0 <= i < |chains[a]| && chains[a][i].key == chains[b][j].key ==> a == b && i == j
  {
    forall a, i | 0 <= a < |chains| && 0 <= i < |chains[a]| && chains[a][i].key == chains[b][j].key
      ensures a == b && i == j
    {
      OneChain(hash, chains, index, a, i);
      OneChain(hash, chains, index, b, j);
    }
  }

  // Every key is the key of one of the entries.
  ghost predicate Covers<K(!new), V>(all: seq<Entry<K, V>>, index: map<K, Entry<K, V>>) {
    |all| == |index| && forall k :: k in index <==> exists i :: 0 <= i < |all| && all[i].key == k
  }

  lemma {:induction false} FlattenCovers<K(!new), V>(ht: Dict<K, V>)
    requires ht.Valid()
    ensures Covers(Flatten(ht.chains), ht.index)
  {
    var all := Flatten(ht.chains);
    if ht.size == 0 {
      assert |ht.index| == 0 && ht.index == map[];
    } else {
      forall k | k in ht.index
        ensures exists i :: 0 <= i < |all| && all[i].key == k
      {
        FlattenHolds(ht.chains, ht.index[k]);
      }
      forall i | 0 <= i < |all|
        ensures all[i].key in ht.index
      {
        FlattenHolds(ht.chains, all[i]);
        var b, j :| 0 <= b < |ht.chains| && 0 <= j < |ht.chains[b]| && ht.chains[b][j] == all[i];
        OneChain(ht.hash, ht.chains, ht.index, b, j);
      }
    }
  }

  // An iteration under way: the keys visited so far, and the marked ones among them gone.
  ghost predicate Swept<K(!new), V>(all: seq<Entry<K, V>>, visited: seq<K>, was: map<K, V>, now: map<K, V>,
                          marked: set<K>) {
    && |visited| <= |all| && (forall i :: 0 <= i < |visited| ==> visited[i] == all[i].key)
    && now == was - (set k | k in visited && k in marked)
  }

  lemma SweptStep<K(!new), V>(all: seq<Entry<K, V>>, visited: seq<K>, was: map<K, V>, now: map<K, V>, marked: set<K>)
    requires Swept(all, visited, was, now, marked) && |visited| < |all|
    ensures var key := all[|visited|].key;
            Swept(all, visited + [key], was, if key in marked then now - {key} else now, marked)
  {
    var key := all[|visited|].key;
    assert (set k | k in visited + [key] && k in marked)
        == (set k | k in visited && k in marked) + if key in marked then {key} else {};
  }

  lemma SweptAll<K(!new), V>(all: seq<Entry<K, V>>, visited: seq<K>, was: map<K, V>, now: map<K, V>, marked: set<K>,
                             index: map<K, Entry<K, V>>)
    requires Swept(all, visited, was, now, marked) && |visited| == |all|
    requires Covers(all, index) && index.Keys == was.Keys
    ensures |visited| == |index| && now == was - marked
    ensures forall k :: k in visited <==> k in was
  {
    forall k
      ensures k in visited <==> k in index
    {
      if k in index {
        var i :| 0 <= i < |all| && all[i].key == k;
        assert visited[i] == k;
      }
    }
  }

  lemma ContentsKeys<K(!new), V>(ht: Dict<K, V>)
    requires ht.Valid()
    ensures |ht.Contents()| == |ht.index| && ht.Contents().Keys == ht.index.Keys
  {
    assert ht.Contents().Keys == ht.index.Keys;
    assert |ht.Contents()| == |ht.Contents().Keys| && |ht.index| == |ht.index.Keys|;
  }

  method VisitAll<K(!new, ==), V>(iter: Iterator<K, V>, marked: set<K>, ghost all: seq<Entry<K, V>>,
                                  ghost was: map<K, V>) returns (visited: seq<K>)
    requires iter.UnderWay(all, [], was, marked)
    modifies iter, iter.ht`used, iter.ht`chains, iter.ht`index, iter.ht.table, iter.ht.region`next
    ensures |visited| == |all| && iter.UnderWay(all, visited, was, marked)
  {
    hide Dict.Valid, Dict.Contents, Iterator.UnderWay;
    visited := [];
    while true
      invariant |visited| <= |all| && iter.UnderWay(all, visited, was, marked)
      decreases |all| - |visited|
    {
      var e := iter.Visit(marked, all, visited, was);
      if e == null {
        break;
      }
      visited := visited + [e.key];
    }
  }

  /** An iteration that deletes the entries of some keys, each right after it was returned: as many
      visits as there are keys, every key visited, and the rest of the keys left. */
  method Sweep<K(!new, ==), V>(ht: Dict<K, V>, marked: set<K>) returns (visited: seq<K>)
    requires ht.Valid()
    modifies ht`used, ht`chains, ht`index, ht.table, ht.region`next
    ensures ht.Valid() && |visited| == |old(ht.Contents())|
    ensures forall k :: k in visited <==> k in old(ht.Contents())
    ensures ht.Contents() == old(ht.Contents()) - marked
  {
    hide Flatten, Dict.Valid, Dict.Contents, Covers, Iterator.UnderWay;
    ghost var all, was, index := Flatten(ht.chains), ht.Contents(), ht.index;
    FlattenCovers(ht);
    ContentsKeys(ht);
    var iter := new Iterator(ht);
    iter.Begins(all, was, marked);
    visited := VisitAll(iter, marked, all, was);
    iter.Ends(all, visited, was, marked, index);
  }

  lemma SweptNone<K(!new), V>(all: seq<Entry<K, V>>, was: map<K, V>, marked: set<K>)
    ensures Swept(all, [], was, was, marked)
  {
  }
}
