/**
 * The bucket array of SimpleHashMap as a value: a sequence of chains, each
 * chain a sequence of nodes, head first (a node's `next` is the node after it
 * in its chain).  This module gives reference definitions of what `get`,
 * `containsKey`, `put`, `remove` and `resize` do to the buckets, the
 * invariant that ties the buckets to an abstract map, and the lemmas that
 * each operation keeps that invariant.
 */
module Buckets {
  import opened Nullables
  import opened Hashing

  /** An entry: its cached hash, its key and its value. */
  datatype Node<K, V> = Node(hash: Word, key: Nullable<K>, value: Nullable<V>)

  /** One bucket's chain, head first. */
  type Chain<K, V> = seq<Node<K, V>>

  /** The whole bucket array. */
  type Table<K, V> = seq<Chain<K, V>>

  /** A length `indexFor` may be applied to. */
  predicate ValidLength(n: int)
  {
    1 <= n <= MaxCapacity
  }

  /** The test every chain scan performs: same cached hash and equal keys. */
  predicate Matches<K(==), V>(node: Node<K, V>, hash: Word, key: Nullable<K>)
  {
    node.hash == hash && node.key == key
  }

  /** The bucket a key belongs to in a table of n buckets. */
  function BucketOf<K>(hashCode: K -> Word, key: Nullable<K>, n: int): (r: nat)
    requires ValidLength(n)
    ensures r < n
  {
    IndexFor(Hash(hashCode, key), n)
  }

  /**
   * The position of the first node of the chain that matches, or the length
   * of the chain when none does: where a head-first scan stops.
   */
  function Find<K(==), V>(chain: Chain<K, V>, hash: Word, key: Nullable<K>): (r: nat)
    ensures r <= |chain|
    ensures forall j :: 0 <= j < r ==> !Matches(chain[j], hash, key)
    ensures r < |chain| ==> Matches(chain[r], hash, key)
  {
    if chain == [] then 0
    else if Matches(chain[0], hash, key) then 0
    else 1 + Find(chain[1..], hash, key)
  }

  /** The chain without its node at position p. */
  function RemoveAt<K, V>(chain: Chain<K, V>, p: nat): (r: Chain<K, V>)
    requires p < |chain|
    ensures |r| == |chain| - 1
    ensures forall a :: 0 <= a < p ==> r[a] == chain[a]
    ensures forall a :: p <= a < |r| ==> r[a] == chain[a + 1]
  {
    chain[..p] + chain[p + 1..]
  }

  // ---------------------------------------------------------------------
  // Reference definitions of the operations
  // ---------------------------------------------------------------------

  /**
   * What `get` returns: the value of the matching node, or null.  A non-null
   * answer means the key has a node, which `containsKey` relies on.
   */
  function Lookup<K(==), V>(hashCode: K -> Word, t: Table<K, V>, key: Nullable<K>): (value: Nullable<V>)
    requires ValidLength(|t|)
    ensures value != Null ==> HasKey(hashCode, t, key)
  {
    var h := Hash(hashCode, key);
    var chain := t[IndexFor(h, |t|)];
    var p := Find(chain, h, key);
    if p < |chain| then chain[p].value else Null
  }

  /**
   * What `containsNullValue` answers: some node of the key's bucket carries
   * the key's hash and the key.
   */
  function HasKey<K(==), V>(hashCode: K -> Word, t: Table<K, V>, key: Nullable<K>): (found: bool)
    requires ValidLength(|t|)
    ensures var b := BucketOf(hashCode, key, |t|);
            found <==> exists j :: 0 <= j < |t[b]| && Matches(t[b][j], Hash(hashCode, key), key)
  {
    var h := Hash(hashCode, key);
    var chain := t[IndexFor(h, |t|)];
    Find(chain, h, key) < |chain|
  }

  /**
   * The buckets after `put` and before any resize: the matching node gets
   * the new value, or a new node is prepended to the key's bucket.
   */
  function PutIn<K(==), V>(hashCode: K -> Word, t: Table<K, V>, key: Nullable<K>, value: Nullable<V>): (r: Table<K, V>)
    requires ValidLength(|t|)
    ensures |r| == |t|
    ensures HasKey(hashCode, r, key) && Lookup(hashCode, r, key) == value
    ensures forall b :: 0 <= b < |t| && b != BucketOf(hashCode, key, |t|) ==> r[b] == t[b]
  {
    var h := Hash(hashCode, key);
    var b := IndexFor(h, |t|);
    var p := Find(t[b], h, key);
    if p < |t[b]| then
      var c := t[b][p := t[b][p].(value := value)];
      FindIgnoresValues(t[b], c, h, key);
      t[b := c]
    else t[b := [Node(h, key, value)] + t[b]]
  }

  /** The scan looks only at hashes and keys, so changing values does not move it. */
  lemma FindIgnoresValues<K, V>(c: Chain<K, V>, c': Chain<K, V>, hash: Word, key: Nullable<K>)
    requires |c| == |c'|
    requires forall j :: 0 <= j < |c| ==> c[j].hash == c'[j].hash && c[j].key == c'[j].key
    ensures Find(c', hash, key) == Find(c, hash, key)
  {
  }

  /** The buckets after `remove`: the matching node is unlinked, if any. */
  function RemoveFrom<K(==), V>(hashCode: K -> Word, t: Table<K, V>, key: Nullable<K>): (r: Table<K, V>)
    requires ValidLength(|t|)
    ensures |r| == |t|
    ensures r == t <==> !HasKey(hashCode, t, key)
    ensures var b := BucketOf(hashCode, key, |t|);
            HasKey(hashCode, t, key) ==> |r[b]| == |t[b]| - 1
    ensures forall b :: 0 <= b < |t| && b != BucketOf(hashCode, key, |t|) ==> r[b] == t[b]
  {
    var h := Hash(hashCode, key);
    var b := IndexFor(h, |t|);
    var p := Find(t[b], h, key);
    if p < |t[b]| then t[b := RemoveAt(t[b], p)] else t
  }

  /** All nodes, bucket by bucket in index order, each chain head first. */
  function Flatten<K, V>(t: Table<K, V>): Chain<K, V>
  {
    if t == [] then [] else Flatten(t[..|t| - 1]) + t[|t| - 1]
  }

  /** n empty buckets: a freshly allocated bucket array. */
  function EmptyTable<K, V>(n: nat): (r: Table<K, V>)
    ensures |r| == n
    ensures forall b :: 0 <= b < n ==> r[b] == []
  {
    seq(n, _ => [])
  }

  /**
   * Prepends each node, in order, to the bucket its cached hash selects:
   * the relinking step of `resize`.
   */
  function Scatter<K, V>(acc: Table<K, V>, nodes: Chain<K, V>): (r: Table<K, V>)
    requires ValidLength(|acc|)
    ensures |r| == |acc|
  {
    if nodes == [] then acc
    else
      var s := Scatter(acc, nodes[..|nodes| - 1]);
      var node := nodes[|nodes| - 1];
      var i := IndexFor(node.hash, |s|);
      s[i := [node] + s[i]]
  }

  /** The buckets after `resize` to n buckets. */
  function Rehash<K, V>(t: Table<K, V>, n: int): (r: Table<K, V>)
    requires ValidLength(n)
    ensures |r| == n
  {
    Scatter(EmptyTable(n), Flatten(t))
  }

  // ---------------------------------------------------------------------
  // The invariant
  // ---------------------------------------------------------------------

  /** Every node's cached hash is the hash of its key. */
  ghost predicate CachedHashes<K, V>(hashCode: K -> Word, t: Table<K, V>)
  {
    forall b, j :: 0 <= b < |t| && 0 <= j < |t[b]| ==> t[b][j].hash == Hash(hashCode, t[b][j].key)
  }

  /** Every node sits in the bucket its cached hash selects. */
  ghost predicate WellPlaced<K, V>(t: Table<K, V>)
    requires ValidLength(|t|)
  {
    forall b, j :: 0 <= b < |t| && 0 <= j < |t[b]| ==> IndexFor(t[b][j].hash, |t|) == b
  }

  /** No key occurs twice in the chain. */
  ghost predicate DistinctKeys<K, V>(chain: Chain<K, V>)
  {
    forall a, c :: 0 <= a < c < |chain| ==> chain[a].key != chain[c].key
  }

  ghost predicate KeyInChain<K, V>(chain: Chain<K, V>, key: Nullable<K>)
  {
    exists j :: 0 <= j < |chain| && chain[j].key == key
  }

  /** The key has a node in the bucket it belongs to. */
  ghost predicate KeyStored<K, V>(hashCode: K -> Word, t: Table<K, V>, key: Nullable<K>)
    requires ValidLength(|t|)
  {
    KeyInChain(t[BucketOf(hashCode, key, |t|)], key)
  }

  /**
   * The buckets store exactly the map m: hashes cached, nodes in their
   * buckets, no key twice in a bucket, every node an entry of m and every
   * entry of m a node in its key's bucket.
   */
  ghost predicate Represents<K, V>(hashCode: K -> Word, t: Table<K, V>, m: map<Nullable<K>, Nullable<V>>)
  {
    && ValidLength(|t|)
    && CachedHashes(hashCode, t)
    && WellPlaced(t)
    && (forall b :: 0 <= b < |t| ==> DistinctKeys(t[b]))
    && (forall b, j :: 0 <= b < |t| && 0 <= j < |t[b]| ==>
          t[b][j].key in m && m[t[b][j].key] == t[b][j].value)
    && (forall k {:trigger KeyStored(hashCode, t, k)} :: k in m ==> KeyStored(hashCode, t, k))
  }

  // ---------------------------------------------------------------------
  // Lemmas
  // ---------------------------------------------------------------------

  /**
   * The scan of the key's bucket finds a node exactly when the key is in
   * the map, and the node it finds holds the key's value.
   */
  lemma FindAgrees<K, V>(hashCode: K -> Word, t: Table<K, V>, m: map<Nullable<K>, Nullable<V>>, key: Nullable<K>)
    requires Represents(hashCode, t, m)
    ensures var h := Hash(hashCode, key);
            var chain := t[IndexFor(h, |t|)];
            var p := Find(chain, h, key);
            && (p < |chain| <==> key in m)
            && (p < |chain| ==> chain[p].key == key && m[key] == chain[p].value)
  {
    var h := Hash(hashCode, key);
    var b := IndexFor(h, |t|);
    var p := Find(t[b], h, key);
    if key in m {
      assert KeyStored(hashCode, t, key);
      var j :| 0 <= j < |t[b]| && t[b][j].key == key;
      assert Matches(t[b][j], h, key);
    }
  }

  /** `get` returns the key's value when present and null when absent. */
  lemma LookupAgrees<K, V>(hashCode: K -> Word, t: Table<K, V>, m: map<Nullable<K>, Nullable<V>>, key: Nullable<K>)
    requires Represents(hashCode, t, m)
    ensures Lookup(hashCode, t, key) == if key in m then m[key] else Null
    ensures HasKey(hashCode, t, key) <==> key in m
  {
    FindAgrees(hashCode, t, m, key);
  }

  /**
   * Replacing the chain of bucket b keeps the invariant for a map m' that
   * agrees with m outside bucket b, when the new chain is consistent with m'.
   */
  lemma ReplaceBucket<K, V>(hashCode: K -> Word, t: Table<K, V>, m: map<Nullable<K>, Nullable<V>>,
                            m': map<Nullable<K>, Nullable<V>>, b: int, c': Chain<K, V>)
    requires Represents(hashCode, t, m) && 0 <= b < |t|
    requires forall j :: 0 <= j < |c'| ==>
               c'[j].hash == Hash(hashCode, c'[j].key) && IndexFor(c'[j].hash, |t|) == b
    requires forall j :: 0 <= j < |c'| ==> c'[j].key in m' && m'[c'[j].key] == c'[j].value
    requires DistinctKeys(c')
    requires forall k :: k in m && BucketOf(hashCode, k, |t|) != b ==> k in m' && m'[k] == m[k]
    requires forall k :: k in m' ==>
               if BucketOf(hashCode, k, |t|) == b then KeyInChain(c', k) else k in m
    ensures Represents(hashCode, t[b := c'], m')
  {
    var t': Table<K, V> := t[b := c'];
    forall i, j | 0 <= i < |t'| && 0 <= j < |t'[i]| && i != b
      ensures t'[i][j].key in m' && m'[t'[i][j].key] == t'[i][j].value
    {
      assert BucketOf(hashCode, t[i][j].key, |t|) == i;
    }
    forall k | k in m'
      ensures KeyStored(hashCode, t', k)
    {
      if BucketOf(hashCode, k, |t|) != b {
        assert KeyStored(hashCode, t, k);
      }
    }
  }

  /** `put` on a present key: the matching node takes the new value. */
  lemma OverwritePreserves<K, V>(hashCode: K -> Word, t: Table<K, V>, m: map<Nullable<K>, Nullable<V>>,
                                 key: Nullable<K>, value: Nullable<V>, b: int, p: int)
    requires Represents(hashCode, t, m)
    requires b == BucketOf(hashCode, key, |t|) && 0 <= p < |t[b]| && t[b][p].key == key
    ensures Represents(hashCode, t[b := t[b][p := t[b][p].(value := value)]], m[key := value])
  {
    var c := t[b];
    var c' := c[p := c[p].(value := value)];
    var m' := m[key := value];
    forall j | 0 <= j < |c'|
      ensures c'[j].key in m' && m'[c'[j].key] == c'[j].value
    {
      if j != p {
        assert c[j].key != c[p].key;
      }
    }
    assert DistinctKeys(c') by {
      forall a, d | 0 <= a < d < |c'|
        ensures c'[a].key != c'[d].key
      {
        assert c'[a].key == c[a].key && c'[d].key == c[d].key;
      }
    }
    forall k | k in m'
      ensures if BucketOf(hashCode, k, |t|) == b then KeyInChain(c', k) else k in m
    {
      if BucketOf(hashCode, k, |t|) == b {
        if k == key {
          assert c'[p].key == k;
        } else {
          assert KeyStored(hashCode, t, k);
          var j :| 0 <= j < |c| && c[j].key == k;
          assert c'[j].key == k;
        }
      }
    }
    ReplaceBucket(hashCode, t, m, m', b, c');
  }

  /** `put` on an absent key: a new node heads the key's bucket. */
  lemma PrependPreserves<K, V>(hashCode: K -> Word, t: Table<K, V>, m: map<Nullable<K>, Nullable<V>>,
                               key: Nullable<K>, value: Nullable<V>, b: int)
    requires Represents(hashCode, t, m)
    requires key !in m && b == BucketOf(hashCode, key, |t|)
    ensures Represents(hashCode, t[b := [Node(Hash(hashCode, key), key, value)] + t[b]], m[key := value])
  {
    var c := t[b];
    var x := Node(Hash(hashCode, key), key, value);
    var c' := [x] + c;
    var m' := m[key := value];
    forall j | 0 <= j < |c'|
      ensures c'[j].key in m' && m'[c'[j].key] == c'[j].value
    {
      if j > 0 {
        assert c'[j] == c[j - 1];
      }
    }
    forall j | 0 <= j < |c|
      ensures c[j].key != key
    {
      assert c[j].key in m;
    }
    DistinctPrepend(x, c);
    forall k | k in m'
      ensures if BucketOf(hashCode, k, |t|) == b then KeyInChain(c', k) else k in m
    {
      if BucketOf(hashCode, k, |t|) == b {
        if k == key {
          assert c'[0].key == k;
        } else {
          assert KeyStored(hashCode, t, k);
          var j :| 0 <= j < |c| && c[j].key == k;
          assert c'[j + 1].key == k;
        }
      }
    }
    ReplaceBucket(hashCode, t, m, m', b, c');
  }

  /** A node whose key no node of the chain has keeps the chain key-distinct when prepended. */
  lemma DistinctPrepend<K, V>(x: Node<K, V>, c: Chain<K, V>)
    requires DistinctKeys(c) && forall j :: 0 <= j < |c| ==> c[j].key != x.key
    ensures DistinctKeys([x] + c)
  {
    var c' := [x] + c;
    forall a, d | 0 <= a < d < |c'|
      ensures c'[a].key != c'[d].key
    {
      assert c'[d] == c[d - 1];
      if a > 0 {
        assert c'[a] == c[a - 1];
      }
    }
  }

  /** `remove` on a present key: the matching node is unlinked. */
  lemma UnlinkPreserves<K, V>(hashCode: K -> Word, t: Table<K, V>, m: map<Nullable<K>, Nullable<V>>,
                              key: Nullable<K>, b: int, p: int)
    requires Represents(hashCode, t, m)
    requires b == BucketOf(hashCode, key, |t|) && 0 <= p < |t[b]| && t[b][p].key == key
    ensures Represents(hashCode, t[b := RemoveAt(t[b], p)], m - {key})
  {
    var c := t[b];
    var c' := RemoveAt(c, p);
    var m' := m - {key};
    forall j | 0 <= j < |c'|
      ensures c'[j].key in m' && m'[c'[j].key] == c'[j].value
    {
      var j0 := if j < p then j else j + 1;
      assert c'[j] == c[j0] && c[j0].key != c[p].key;
    }
    assert DistinctKeys(c') by {
      forall a, d | 0 <= a < d < |c'|
        ensures c'[a].key != c'[d].key
      {
        var a0 := if a < p then a else a + 1;
        var d0 := if d < p then d else d + 1;
        assert c'[a] == c[a0] && c'[d] == c[d0];
      }
    }
    forall k | k in m'
      ensures if BucketOf(hashCode, k, |t|) == b then KeyInChain(c', k) else k in m
    {
      if BucketOf(hashCode, k, |t|) == b {
        assert KeyStored(hashCode, t, k);
        var j :| 0 <= j < |c| && c[j].key == k;
        if j < p {
          assert c'[j].key == k;
        } else {
          assert j != p;
          assert c'[j - 1].key == k;
        }
      }
    }
    ReplaceBucket(hashCode, t, m, m', b, c');
  }

  /** `put` keeps the invariant, updates the map and counts a new key once. */
  lemma PutPreserves<K, V>(hashCode: K -> Word, t: Table<K, V>, m: map<Nullable<K>, Nullable<V>>,
                           key: Nullable<K>, value: Nullable<V>)
    requires Represents(hashCode, t, m)
    ensures Represents(hashCode, PutIn(hashCode, t, key, value), m[key := value])
    ensures |Flatten(PutIn(hashCode, t, key, value))| == |Flatten(t)| + (if key in m then 0 else 1)
    ensures |m[key := value]| == |m| + (if key in m then 0 else 1)
  {
    var h := Hash(hashCode, key);
    var b := IndexFor(h, |t|);
    var c := t[b];
    var p := Find(c, h, key);
    FindAgrees(hashCode, t, m, key);
    if p < |c| {
      OverwritePreserves(hashCode, t, m, key, value, b, p);
      FlattenUpdateSize(t, b, c[p := c[p].(value := value)]);
    } else {
      PrependPreserves(hashCode, t, m, key, value, b);
      FlattenUpdateSize(t, b, [Node(h, key, value)] + c);
    }
  }

  /** `remove` keeps the invariant, deletes the key and uncounts it. */
  lemma RemovePreserves<K, V>(hashCode: K -> Word, t: Table<K, V>, m: map<Nullable<K>, Nullable<V>>,
                              key: Nullable<K>)
    requires Represents(hashCode, t, m)
    ensures Represents(hashCode, RemoveFrom(hashCode, t, key), m - {key})
    ensures |Flatten(RemoveFrom(hashCode, t, key))| == |Flatten(t)| - (if key in m then 1 else 0)
    ensures |m - {key}| == |m| - (if key in m then 1 else 0)
    ensures key !in m ==> RemoveFrom(hashCode, t, key) == t && m - {key} == m
  {
    var h := Hash(hashCode, key);
    var b := IndexFor(h, |t|);
    var c := t[b];
    var p := Find(c, h, key);
    FindAgrees(hashCode, t, m, key);
    if p < |c| {
      UnlinkPreserves(hashCode, t, m, key, b, p);
      FlattenUpdateSize(t, b, RemoveAt(c, p));
    } else {
      assert m - {key} == m;
    }
  }

  /** After `put`, `get` gives the new value for the key and the old value for every other key. */
  lemma PutThenLookup<K, V>(hashCode: K -> Word, t: Table<K, V>, m: map<Nullable<K>, Nullable<V>>,
                            key: Nullable<K>, value: Nullable<V>, other: Nullable<K>)
    requires Represents(hashCode, t, m)
    ensures Lookup(hashCode, PutIn(hashCode, t, key, value), key) == value
    ensures other != key ==> Lookup(hashCode, PutIn(hashCode, t, key, value), other) == Lookup(hashCode, t, other)
  {
    PutPreserves(hashCode, t, m, key, value);
    LookupAgrees(hashCode, PutIn(hashCode, t, key, value), m[key := value], key);
    LookupAgrees(hashCode, PutIn(hashCode, t, key, value), m[key := value], other);
    LookupAgrees(hashCode, t, m, other);
  }

  /** After `remove`, the key is absent and every other key keeps its value. */
  lemma RemoveThenLookup<K, V>(hashCode: K -> Word, t: Table<K, V>, m: map<Nullable<K>, Nullable<V>>,
                               key: Nullable<K>, other: Nullable<K>)
    requires Represents(hashCode, t, m)
    ensures !HasKey(hashCode, RemoveFrom(hashCode, t, key), key)
    ensures Lookup(hashCode, RemoveFrom(hashCode, t, key), key) == Null
    ensures other != key ==> Lookup(hashCode, RemoveFrom(hashCode, t, key), other) == Lookup(hashCode, t, other)
  {
    RemovePreserves(hashCode, t, m, key);
    LookupAgrees(hashCode, RemoveFrom(hashCode, t, key), m - {key}, key);
    LookupAgrees(hashCode, RemoveFrom(hashCode, t, key), m - {key}, other);
    LookupAgrees(hashCode, t, m, other);
  }

  /** `resize` changes no key's value as seen by `get`. */
  lemma RehashThenLookup<K, V>(hashCode: K -> Word, t: Table<K, V>, m: map<Nullable<K>, Nullable<V>>,
                               n: int, key: Nullable<K>)
    requires Represents(hashCode, t, m) && ValidLength(n)
    ensures Lookup(hashCode, Rehash(t, n), key) == Lookup(hashCode, t, key)
    ensures HasKey(hashCode, Rehash(t, n), key) == HasKey(hashCode, t, key)
  {
    RehashPreserves(hashCode, t, m, n);
    LookupAgrees(hashCode, Rehash(t, n), m, key);
    LookupAgrees(hashCode, t, m, key);
  }

  /**
   * `put` on a present key changes only that node's value: every bucket
   * keeps its length, and every node its hash, its key and its position.
   */
  lemma PutPresentInPlace<K, V>(hashCode: K -> Word, t: Table<K, V>, m: map<Nullable<K>, Nullable<V>>,
                                key: Nullable<K>, value: Nullable<V>)
    requires Represents(hashCode, t, m) && key in m
    ensures forall b :: 0 <= b < |t| ==> |PutIn(hashCode, t, key, value)[b]| == |t[b]|
    ensures forall b, j :: 0 <= b < |t| && 0 <= j < |t[b]| ==>
              && PutIn(hashCode, t, key, value)[b][j].hash == t[b][j].hash
              && PutIn(hashCode, t, key, value)[b][j].key == t[b][j].key
              && PutIn(hashCode, t, key, value)[b][j].value == (if t[b][j].key == key then value else t[b][j].value)
  {
    FindAgrees(hashCode, t, m, key);
    var h := Hash(hashCode, key);
    var b0 := IndexFor(h, |t|);
    var p := Find(t[b0], h, key);
    forall b, j | 0 <= b < |t| && 0 <= j < |t[b]| && t[b][j].key == key
      ensures b == b0 && j == p
    {
      assert BucketOf(hashCode, t[b][j].key, |t|) == b;
    }
  }

  /**
   * `put` on an absent key puts a node holding the key, its hash and the
   * value at the head of the key's bucket and changes no other bucket.
   */
  lemma PutAbsentPrepends<K, V>(hashCode: K -> Word, t: Table<K, V>, m: map<Nullable<K>, Nullable<V>>,
                                key: Nullable<K>, value: Nullable<V>)
    requires Represents(hashCode, t, m) && key !in m
    ensures PutIn(hashCode, t, key, value)[BucketOf(hashCode, key, |t|)]
         == [Node(Hash(hashCode, key), key, value)] + t[BucketOf(hashCode, key, |t|)]
    ensures forall b :: 0 <= b < |t| && b != BucketOf(hashCode, key, |t|) ==> PutIn(hashCode, t, key, value)[b] == t[b]
  {
    FindAgrees(hashCode, t, m, key);
  }

  /**
   * `remove` on a present key takes exactly the key's node out of the key's
   * bucket, keeping the other nodes of the bucket, and changes no other bucket.
   */
  lemma RemovePresentUnlinks<K, V>(hashCode: K -> Word, t: Table<K, V>, m: map<Nullable<K>, Nullable<V>>,
                                   key: Nullable<K>)
    requires Represents(hashCode, t, m) && key in m
    ensures |RemoveFrom(hashCode, t, key)[BucketOf(hashCode, key, |t|)]| == |t[BucketOf(hashCode, key, |t|)]| - 1
    ensures forall x :: x in RemoveFrom(hashCode, t, key)[BucketOf(hashCode, key, |t|)] <==>
              x in t[BucketOf(hashCode, key, |t|)] && x.key != key
    ensures forall b :: 0 <= b < |t| && b != BucketOf(hashCode, key, |t|) ==> RemoveFrom(hashCode, t, key)[b] == t[b]
  {
    FindAgrees(hashCode, t, m, key);
    var h := Hash(hashCode, key);
    var b := IndexFor(h, |t|);
    var c := t[b];
    var p := Find(c, h, key);
    var c' := RemoveAt(c, p);
    forall x
      ensures x in c' <==> x in c && x.key != key
    {
      if x in c' {
        var j :| 0 <= j < |c'| && c'[j] == x;
        var j0 := if j < p then j else j + 1;
        assert c[j0] == x && c[j0].key != c[p].key;
      }
      if x in c && x.key != key {
        var j :| 0 <= j < |c| && c[j] == x;
        assert j != p;
        assert c'[if j < p then j else j - 1] == x;
      }
    }
  }

  /** Flatten of a table with one more bucket appended. */
  lemma FlattenSnoc<K, V>(t: Table<K, V>, c: Chain<K, V>)
    ensures Flatten(t + [c]) == Flatten(t) + c
  {
    assert (t + [c])[..|t|] == t;
  }

  /** Replacing one bucket changes the node count by the difference in chain lengths. */
  lemma {:induction false} FlattenUpdateSize<K, V>(t: Table<K, V>, b: int, c: Chain<K, V>)
    requires 0 <= b < |t|
    ensures |Flatten(t[b := c])| == |Flatten(t)| - |t[b]| + |c|
    decreases |t|
  {
    var n := |t| - 1;
    var t': Table<K, V> := t[b := c];
    if b < n {
      assert t'[..n] == t[..n][b := c];
      FlattenUpdateSize(t[..n], b, c);
    } else {
      assert t'[..n] == t[..n];
    }
  }

  /** Prepending a node to one bucket adds exactly that node to the table. */
  lemma {:induction false} FlattenPrepend<K, V>(t: Table<K, V>, b: int, x: Node<K, V>)
    requires 0 <= b < |t|
    ensures multiset(Flatten(t[b := [x] + t[b]])) == multiset(Flatten(t)) + multiset{x}
    decreases |t|
  {
    var n := |t| - 1;
    var t': Table<K, V> := t[b := [x] + t[b]];
    assert Flatten(t) == Flatten(t[..n]) + t[n];
    assert Flatten(t') == Flatten(t'[..n]) + t'[n];
    if b < n {
      assert t'[..n] == t[..n][b := [x] + t[..n][b]];
      FlattenPrepend(t[..n], b, x);
    } else {
      assert t'[..n] == t[..n];
      assert multiset([x] + t[b]) == multiset{x} + multiset(t[b]);
    }
  }

  /** A node is in the flattened table exactly when it is in some bucket. */
  lemma {:induction false} FlattenMembers<K, V>(t: Table<K, V>, x: Node<K, V>)
    ensures x in Flatten(t) <==> exists b :: 0 <= b < |t| && x in t[b]
    decreases |t|
  {
    if t != [] {
      var n := |t| - 1;
      FlattenMembers(t[..n], x);
      if x in Flatten(t[..n]) {
        var b :| 0 <= b < n && x in t[..n][b];
        assert x in t[b];
      }
      if b :| 0 <= b < |t| && x in t[b] {
        if b < n {
          assert x in t[..n][b];
        }
      }
    }
  }

  /** The first i buckets hold only correctly hashed nodes of buckets below i. */
  lemma {:induction false} FlattenPrefixBelow<K, V>(hashCode: K -> Word, t: Table<K, V>, i: nat)
    requires ValidLength(|t|) && CachedHashes(hashCode, t) && WellPlaced(t)
    requires i <= |t|
    ensures forall x :: x in Flatten(t[..i]) ==>
              x.hash == Hash(hashCode, x.key) && IndexFor(x.hash, |t|) < i
  {
    if i > 0 {
      FlattenPrefixBelow(hashCode, t, i - 1);
      assert t[..i] == t[..i - 1] + [t[i - 1]];
      FlattenSnoc(t[..i - 1], t[i - 1]);
    }
  }

  /** Two key-distinct chains with no key in common concatenate to a key-distinct chain. */
  lemma DistinctConcat<K, V>(front: Chain<K, V>, c: Chain<K, V>)
    requires DistinctKeys(front) && DistinctKeys(c)
    requires forall a, d :: 0 <= a < |front| && 0 <= d < |c| ==> front[a].key != c[d].key
    ensures DistinctKeys(front + c)
  {
    var all := front + c;
    forall a, d | 0 <= a < d < |all|
      ensures all[a].key != all[d].key
    {
      if d < |front| {
        assert all[a] == front[a] && all[d] == front[d];
      } else if a >= |front| {
        assert all[a] == c[a - |front|] && all[d] == c[d - |front|];
      } else {
        assert all[a] == front[a] && all[d] == c[d - |front|];
      }
    }
  }

  /**
   * In a table whose nodes are placed and hashed correctly and whose chains
   * have distinct keys, no key occurs twice among all the nodes.
   */
  lemma {:induction false} FlattenDistinct<K, V>(hashCode: K -> Word, t: Table<K, V>, i: nat)
    requires ValidLength(|t|) && CachedHashes(hashCode, t) && WellPlaced(t)
    requires forall b :: 0 <= b < |t| ==> DistinctKeys(t[b])
    requires i <= |t|
    ensures DistinctKeys(Flatten(t[..i]))
  {
    if i > 0 {
      FlattenDistinct(hashCode, t, i - 1);
      var front, c := Flatten(t[..i - 1]), t[i - 1];
      assert t[..i] == t[..i - 1] + [c];
      FlattenSnoc(t[..i - 1], c);
      FlattenPrefixBelow(hashCode, t, i - 1);
      forall a, d | 0 <= a < |front| && 0 <= d < |c|
        ensures front[a].key != c[d].key
      {
        assert front[a] in Flatten(t[..i - 1]);
      }
      DistinctConcat(front, c);
    }
  }

  /** Scattering places every node in the bucket its cached hash selects. */
  lemma {:induction false} ScatterPlaced<K, V>(n: int, nodes: Chain<K, V>)
    requires ValidLength(n)
    ensures WellPlaced(Scatter(EmptyTable(n), nodes))
  {
    if nodes != [] {
      var front := nodes[..|nodes| - 1];
      var x := nodes[|nodes| - 1];
      ScatterPlaced(n, front);
      var s := Scatter(EmptyTable(n), front);
      var i := IndexFor(x.hash, n);
      var s': Table<K, V> := s[i := [x] + s[i]];
      forall b, j | 0 <= b < n && 0 <= j < |s'[b]|
        ensures IndexFor(s'[b][j].hash, n) == b
      {
        if b == i && j > 0 {
          assert s'[b][j] == s[b][j - 1];
        }
      }
    }
  }

  /** Scattering into empty buckets only moves the given nodes. */
  lemma {:induction false} ScatterFrom<K, V>(n: int, nodes: Chain<K, V>)
    requires ValidLength(n)
    ensures forall b, j :: 0 <= b < n && 0 <= j < |Scatter(EmptyTable(n), nodes)[b]| ==>
              Scatter(EmptyTable(n), nodes)[b][j] in nodes
  {
    if nodes != [] {
      var front := nodes[..|nodes| - 1];
      var x := nodes[|nodes| - 1];
      ScatterFrom(n, front);
      assert nodes == front + [x];
      var s := Scatter(EmptyTable(n), front);
      var i := IndexFor(x.hash, n);
      var s': Table<K, V> := s[i := [x] + s[i]];
      assert Scatter(EmptyTable(n), nodes) == s';
      forall b, j | 0 <= b < n && 0 <= j < |s'[b]|
        ensures s'[b][j] in nodes
      {
        if b == i && j == 0 {
          assert s'[b][j] == x;
        } else {
          var j0 := if b == i then j - 1 else j;
          assert s'[b][j] == s[b][j0];
          assert s[b][j0] in front;
        }
      }
    }
  }

  /** Scattering loses no node. */
  lemma {:induction false} ScatterKeeps<K, V>(n: int, nodes: Chain<K, V>)
    requires ValidLength(n)
    ensures forall x :: x in nodes ==> x in Scatter(EmptyTable(n), nodes)[IndexFor(x.hash, n)]
  {
    if nodes != [] {
      var front := nodes[..|nodes| - 1];
      var x := nodes[|nodes| - 1];
      ScatterKeeps(n, front);
      assert nodes == front + [x];
      var s := Scatter(EmptyTable(n), front);
      var i := IndexFor(x.hash, n);
      var s': Table<K, V> := s[i := [x] + s[i]];
      forall y | y in nodes
        ensures y in s'[IndexFor(y.hash, n)]
      {
        if y != x {
          assert y in front;
        }
      }
    }
  }

  /** Scattering nodes with distinct keys gives chains with distinct keys. */
  lemma {:induction false} ScatterDistinct<K, V>(n: int, nodes: Chain<K, V>)
    requires ValidLength(n) && DistinctKeys(nodes)
    ensures forall b :: 0 <= b < n ==> DistinctKeys(Scatter(EmptyTable(n), nodes)[b])
  {
    if nodes != [] {
      var last := |nodes| - 1;
      var front := nodes[..last];
      var x := nodes[last];
      assert DistinctKeys(front);
      ScatterDistinct(n, front);
      ScatterFrom(n, front);
      var s := Scatter(EmptyTable(n), front);
      var i := IndexFor(x.hash, n);
      var s': Table<K, V> := s[i := [x] + s[i]];
      assert Scatter(EmptyTable(n), nodes) == s';
      forall a, d | 0 <= a < d < |s'[i]|
        ensures s'[i][a].key != s'[i][d].key
      {
        assert s'[i][d] == s[i][d - 1];
        if a == 0 {
          assert s[i][d - 1] in front;
          var e :| 0 <= e < |front| && front[e] == s[i][d - 1];
          assert nodes[e] == front[e] && e < last;
        } else {
          assert s'[i][a] == s[i][a - 1];
        }
      }
      forall b | 0 <= b < n
        ensures DistinctKeys(s'[b])
      {
        if b != i {
          assert s'[b] == s[b];
        }
      }
    }
  }

  /** Scattering one more node is one more prepend. */
  lemma ScatterSnoc<K, V>(acc: Table<K, V>, nodes: Chain<K, V>, x: Node<K, V>)
    requires ValidLength(|acc|)
    ensures Scatter(acc, nodes + [x])
         == Scatter(acc, nodes)[IndexFor(x.hash, |acc|) := [x] + Scatter(acc, nodes)[IndexFor(x.hash, |acc|)]]
  {
    assert (nodes + [x])[..|nodes|] == nodes;
  }

  /** Scattering moves the nodes without creating or losing any. */
  lemma {:induction false} ScatterPermutes<K, V>(acc: Table<K, V>, nodes: Chain<K, V>)
    requires ValidLength(|acc|)
    ensures multiset(Flatten(Scatter(acc, nodes))) == multiset(Flatten(acc)) + multiset(nodes)
  {
    if nodes != [] {
      var front := nodes[..|nodes| - 1];
      var x := nodes[|nodes| - 1];
      ScatterPermutes(acc, front);
      var s := Scatter(acc, front);
      var i := IndexFor(x.hash, |s|);
      FlattenPrepend(s, i, x);
      assert nodes == front + [x];
      assert multiset(nodes) == multiset(front) + multiset{x};
    }
  }

  /** Scattering adds exactly the scattered nodes to the node count. */
  lemma {:induction false} ScatterSize<K, V>(acc: Table<K, V>, nodes: Chain<K, V>)
    requires ValidLength(|acc|)
    ensures |Flatten(Scatter(acc, nodes))| == |Flatten(acc)| + |nodes|
  {
    if nodes != [] {
      var front := nodes[..|nodes| - 1];
      var x := nodes[|nodes| - 1];
      ScatterSize(acc, front);
      var s := Scatter(acc, front);
      var i := IndexFor(x.hash, |s|);
      FlattenUpdateSize(s, i, [x] + s[i]);
    }
  }

  /** `resize` moves every node, creating and losing none. */
  lemma RehashPermutes<K, V>(t: Table<K, V>, n: int)
    requires ValidLength(n)
    ensures multiset(Flatten(Rehash(t, n))) == multiset(Flatten(t))
  {
    ScatterPermutes(EmptyTable(n), Flatten(t));
    EmptyFlatten<K, V>(n);
  }

  lemma {:induction false} EmptyFlatten<K, V>(n: nat)
    ensures Flatten(EmptyTable<K, V>(n)) == []
  {
    if n > 0 {
      assert EmptyTable<K, V>(n)[..n - 1] == EmptyTable<K, V>(n - 1);
      EmptyFlatten<K, V>(n - 1);
    }
  }

  /** Every node `resize` places is a node of the old table. */
  lemma RehashFromTable<K, V>(hashCode: K -> Word, t: Table<K, V>, m: map<Nullable<K>, Nullable<V>>, n: int)
    requires Represents(hashCode, t, m) && ValidLength(n)
    ensures forall b, j :: 0 <= b < n && 0 <= j < |Rehash(t, n)[b]| ==>
              && Rehash(t, n)[b][j].hash == Hash(hashCode, Rehash(t, n)[b][j].key)
              && Rehash(t, n)[b][j].key in m && m[Rehash(t, n)[b][j].key] == Rehash(t, n)[b][j].value
  {
    var s: Table<K, V> := Rehash(t, n);
    ScatterFrom(n, Flatten(t));
    forall b, j | 0 <= b < n && 0 <= j < |s[b]|
      ensures s[b][j].hash == Hash(hashCode, s[b][j].key)
      ensures s[b][j].key in m && m[s[b][j].key] == s[b][j].value
    {
      FlattenMembers(t, s[b][j]);
      var b0 :| 0 <= b0 < |t| && s[b][j] in t[b0];
      var j0 :| 0 <= j0 < |t[b0]| && t[b0][j0] == s[b][j];
    }
  }

  /** Every key of the map still has its node after `resize`. */
  lemma RehashCovers<K, V>(hashCode: K -> Word, t: Table<K, V>, m: map<Nullable<K>, Nullable<V>>, n: int)
    requires Represents(hashCode, t, m) && ValidLength(n)
    ensures forall k {:trigger KeyStored(hashCode, Rehash(t, n), k)} :: k in m ==> KeyStored(hashCode, Rehash(t, n), k)
  {
    var s: Table<K, V> := Rehash(t, n);
    ScatterKeeps(n, Flatten(t));
    forall k | k in m
      ensures KeyStored(hashCode, s, k)
    {
      var bk := BucketOf(hashCode, k, |t|);
      assert KeyStored(hashCode, t, k);
      var j :| 0 <= j < |t[bk]| && t[bk][j].key == k;
      var x := t[bk][j];
      FlattenMembers(t, x);
      assert x in s[IndexFor(x.hash, n)];
      var j' :| 0 <= j' < |s[IndexFor(x.hash, n)]| && s[IndexFor(x.hash, n)][j'] == x;
    }
  }

  /** `resize` keeps the invariant and the map, in a table of any valid length. */
  lemma RehashPreserves<K, V>(hashCode: K -> Word, t: Table<K, V>, m: map<Nullable<K>, Nullable<V>>, n: int)
    requires Represents(hashCode, t, m) && ValidLength(n)
    ensures Represents(hashCode, Rehash(t, n), m)
    ensures |Flatten(Rehash(t, n))| == |Flatten(t)|
  {
    assert t[..|t|] == t;
    FlattenDistinct(hashCode, t, |t|);
    ScatterPlaced(n, Flatten(t));
    ScatterDistinct(n, Flatten(t));
    RehashFromTable(hashCode, t, m, n);
    RehashCovers(hashCode, t, m, n);
    ScatterSize(EmptyTable(n), Flatten(t));
    EmptyFlatten<K, V>(n);
  }
}
