/**
 * SimpleHashMap: a separate-chaining hash table whose bucket array, entry
 * count and resize threshold are updated in place.  Each bucket holds its
 * chain as a sequence, head first.  The ghost field `contents` is the map the
 * table stands for; `Valid()` ties the fields to it.
 */
module SimpleHashMaps {
  import opened Nullables
  import opened Hashing
  import opened Buckets

  /**
   * The most entries the map can hold without a resize that would double
   * the bucket array past MaxCapacity (a Java `int` overflow).
   */
  const MaxEntries: int := Threshold(MaxCapacity)

  class SimpleHashMap<K(==), V> {
    /** The keys' own `hashCode`; key equality is Dafny's `==`. */
    const hashCode: K -> Word

    var table: array<Chain<K, V>>
    var size: int
    var threshold: int

    /** The map the table stands for. */
    ghost var contents: map<Nullable<K>, Nullable<V>>

    /**
     * The invariant that holds between operations, except that an insertion
     * may leave `size` one above `threshold` until it resizes.
     */
    ghost predicate Consistent()
      reads this, table
    {
      && IsPow2(table.Length)
      && DefaultCapacity <= table.Length <= MaxCapacity
      && threshold == Threshold(table.Length)
      && Represents(hashCode, table[..], contents)
      && size == |contents|
      && size == |Flatten(table[..])|
    }

    /** The object invariant: consistent and loaded at most 3/4. */
    ghost predicate Valid()
      reads this, table
    {
      Consistent() && size <= threshold
    }

    /** An empty map with 16 buckets and threshold 12. */
    constructor (hashCode: K -> Word)
      ensures Valid() && fresh(table)
      ensures this.hashCode == hashCode && contents == map[]
      ensures table.Length == 16 && threshold == 12 && size == 0
    {
      this.hashCode := hashCode;
      table := new Chain<K, V>[DefaultCapacity](_ => []);
      threshold := Threshold(DefaultCapacity);
      size := 0;
      contents := map[];
      new;
      assert IsPow2(16) by {
        assert IsPow2(1) && IsPow2(2) && IsPow2(4) && IsPow2(8);
      }
      EmptyFlatten<K, V>(16);
      assert table[..] == EmptyTable(16);
    }

    /** Java's `size()`: the number of keys stored. */
    function Size(): (n: int)
      reads this, table
      requires Valid()
      ensures n == |contents|
    {
      size
    }

    /** Java's `isEmpty()`: no key is stored. */
    function IsEmpty(): (empty: bool)
      reads this, table
      requires Valid()
      ensures empty <==> contents == map[]
    {
      assert contents != map[] ==> exists k :: k in contents;
      size == 0
    }

    /**
     * Java's `get(key)`: the value stored under the key, or null when the
     * key is absent (a key stored with a null value also gives null).
     */
    method Get(key: Nullable<K>) returns (value: Nullable<V>)
      requires Valid()
      ensures value == (if key in contents then contents[key] else Null)
      ensures value == Lookup(hashCode, table[..], key)
    {
      var hash := Hash(hashCode, key);
      var index := IndexFor(hash, table.Length);
      var chain := table[index];
      LookupAgrees(hashCode, table[..], contents, key);
      var i := Scan(chain, hash, key);
      if i < |chain| {
        return chain[i].value;
      }
      return Null;
    }

    /** Java's `containsNullValue(key)`: some node of the key's bucket matches. */
    method ContainsNullValue(key: Nullable<K>) returns (found: bool)
      requires Valid()
      ensures found == HasKey(hashCode, table[..], key)
      ensures found <==> key in contents
    {
      var hash := Hash(hashCode, key);
      var index := IndexFor(hash, table.Length);
      var chain := table[index];
      LookupAgrees(hashCode, table[..], contents, key);
      var i := Scan(chain, hash, key);
      if i < |chain| {
        return true;
      }
      return false;
    }

    /**
     * Java's `containsKey(key)`: a non-null `get`, or else a node for the key
     * holding null.  True exactly when the key is stored, whatever its value.
     */
    method ContainsKey(key: Nullable<K>) returns (present: bool)
      requires Valid()
      ensures present <==> key in contents
    {
      var value := Get(key);
      if value != Null {
        return true;
      }
      present := ContainsNullValue(key);
    }

    /**
     * Java's `put(key, value)`: overwrites the value of a present key in
     * place, or adds a node for a new key (resizing when the count passes
     * the threshold); returns the previous value, or null for a new key.
     */
    method Put(key: Nullable<K>, value: Nullable<V>) returns (previous: Nullable<V>)
      requires Valid()
      requires key in contents || size < MaxEntries
      modifies this, table
      ensures Valid()
      ensures contents == old(contents)[key := value]
      ensures previous == (if key in old(contents) then old(contents)[key] else Null)
      ensures size == old(size) + (if key in old(contents) then 0 else 1)
      ensures if key !in old(contents) && old(size) + 1 > old(threshold) then
                && fresh(table) && table.Length == 2 * old(table.Length)
                && table[..] == Rehash(PutIn(hashCode, old(table[..]), key, value), table.Length)
              else
                table == old(table) && table[..] == PutIn(hashCode, old(table[..]), key, value)
    {
      var hash := Hash(hashCode, key);
      var index := IndexFor(hash, table.Length);
      var chain := table[index];
      var i := Scan(chain, hash, key);
      FindAgrees(hashCode, table[..], contents, key);
      if i < |chain| {
        PutPreserves(hashCode, table[..], contents, key, value);
        previous := chain[i].value;
        table[index] := chain[i := chain[i].(value := value)];
        contents := contents[key := value];
        return;
      }
      AddNode(hash, key, value, index);
      previous := Null;
    }

    /**
     * Java's `addNode`: prepends a node for a new key to its bucket, counts
     * it, and resizes when the count now exceeds the threshold.
     */
    method AddNode(hash: Word, key: Nullable<K>, value: Nullable<V>, index: nat)
      requires Valid()
      requires key !in contents && size < MaxEntries
      requires hash == Hash(hashCode, key) && index == IndexFor(hash, table.Length)
      modifies this, table
      ensures Valid()
      ensures contents == old(contents)[key := value] && size == old(size) + 1
      ensures if size > old(threshold) then
                && fresh(table) && table.Length == 2 * old(table.Length)
                && table[..] == Rehash(old(table[..])[index := [Node(hash, key, value)] + old(table[index])], table.Length)
              else
                table == old(table) && table[..] == old(table[..])[index := [Node(hash, key, value)] + old(table[index])]
    {
      PrependPreserves(hashCode, table[..], contents, key, value, index);
      FlattenUpdateSize(table[..], index, [Node(hash, key, value)] + table[index]);
      table[index] := [Node(hash, key, value)] + table[index];
      size := size + 1;
      contents := contents[key := value];
      if size > threshold {
        assert table.Length < MaxCapacity;
        RoomToDouble(table.Length);
        Resize();
      }
    }

    /**
     * Java's `remove(key)`: unlinks the key's node, from the head of its
     * bucket or from behind its predecessor, and returns its value; an
     * absent key changes nothing and gives null.
     */
    method Remove(key: Nullable<K>) returns (removed: Nullable<V>)
      requires Valid()
      modifies this, table
      ensures table == old(table) && table[..] == RemoveFrom(hashCode, old(table[..]), key)
      ensures contents == old(contents) - {key}
      ensures removed == (if key in old(contents) then old(contents)[key] else Null)
      ensures size == old(size) - (if key in old(contents) then 1 else 0)
      ensures Valid()
    {
      var hash := Hash(hashCode, key);
      var index := IndexFor(hash, table.Length);
      var chain := table[index];
      var i := Scan(chain, hash, key);
      FindAgrees(hashCode, table[..], contents, key);
      RemovePreserves(hashCode, table[..], contents, key);
      if i == |chain| {
        return Null;
      }
      if i == 0 {
        assert RemoveAt(chain, 0) == chain[1..];
        table[index] := chain[1..];
      } else {
        table[index] := chain[..i] + chain[i + 1..];
      }
      size := size - 1;
      contents := contents - {key};
      removed := chain[i].value;
    }

    /**
     * Java's `resize()`: a bucket array of twice the length, the threshold
     * recomputed, and every node moved, head first and bucket by bucket, to
     * the front of the bucket its cached hash selects.
     */
    method Resize()
      requires Consistent() && 2 * table.Length <= MaxCapacity
      modifies this
      ensures fresh(table) && table.Length == 2 * old(table.Length)
      ensures threshold == Threshold(table.Length)
      ensures table[..] == Rehash(old(table[..]), table.Length)
      ensures contents == old(contents) && size == old(size)
      ensures Consistent()
    {
      var oldTable := table;
      var newCapacity := oldTable.Length * 2;
      ghost var before := oldTable[..];
      DoubleIsPow2(oldTable.Length);
      RehashPreserves(hashCode, before, contents, newCapacity);
      table := new Chain<K, V>[newCapacity](_ => []);
      threshold := Threshold(newCapacity);
      assert table[..] == EmptyTable(newCapacity);
      Transfer(oldTable, table);
    }
  }

  /**
   * The walk down a chain shared by `get`, `put`, `remove` and
   * `containsNullValue`: the position of the first node whose cached hash
   * and key both match, or the chain's length when none does.
   */
  method Scan<K(==), V>(chain: Chain<K, V>, hash: Word, key: Nullable<K>) returns (i: nat)
    ensures i == Find(chain, hash, key)
  {
    i := 0;
    while i < |chain| && !(chain[i].hash == hash && chain[i].key == key)
      invariant i <= |chain|
      invariant forall j :: 0 <= j < i ==> !Matches(chain[j], hash, key)
    {
      i := i + 1;
    }
  }

  /**
   * The relinking loop of `resize`: walks the old buckets in index order and
   * each chain from its head, moving every node to the front of the bucket
   * of `newTable` that its cached hash selects.
   */
  method Transfer<K, V>(oldTable: array<Chain<K, V>>, newTable: array<Chain<K, V>>)
    requires oldTable != newTable && ValidLength(newTable.Length)
    requires newTable[..] == EmptyTable(newTable.Length)
    modifies newTable
    ensures newTable[..] == Rehash(oldTable[..], newTable.Length)
  {
    var newCapacity := newTable.Length;
    for i := 0 to oldTable.Length
      invariant newTable[..] == Scatter(EmptyTable(newCapacity), Flatten(oldTable[..i]))
    {
      var chain := oldTable[i];
      ghost var done := Flatten(oldTable[..i]);
      var j := 0;
      assert done + chain[..j] == done;
      while j < |chain|
        invariant 0 <= j <= |chain|
        invariant newTable[..] == Scatter(EmptyTable(newCapacity), done + chain[..j])
      {
        var node := chain[j];
        var newIndex := IndexFor(node.hash, newCapacity);
        SnocSlice(done, chain, j);
        ScatterSnoc(EmptyTable(newCapacity), done + chain[..j], node);
        newTable[newIndex] := [node] + newTable[newIndex];
        j := j + 1;
      }
      assert chain[..j] == chain;
      assert oldTable[..i + 1] == oldTable[..i] + [chain];
      FlattenSnoc(oldTable[..i], chain);
    }
    assert oldTable[..oldTable.Length] == oldTable[..];
  }

  lemma SnocSlice<T>(done: seq<T>, chain: seq<T>, j: int)
    requires 0 <= j < |chain|
    ensures done + chain[..j + 1] == (done + chain[..j]) + [chain[j]]
  {
    assert chain[..j + 1] == chain[..j] + [chain[j]];
  }
}
