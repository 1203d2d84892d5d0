/**
 * Small uses of SimpleHashMap over integer keys whose hash code is the key's
 * own 32-bit pattern, as Java's `Integer.hashCode` gives.
 */
module Scenarios {
  import opened Nullables
  import opened Hashing
  import opened Buckets
  import opened SimpleHashMaps

  /** `Integer.hashCode` for keys in the 32-bit range, as a bit pattern. */
  function IntHash(k: int): Word
  {
    k % 0x1_0000_0000
  }

  /**
   * A key stored with a null value: `get` gives null, yet `containsKey`
   * answers true, while a key never stored answers false.
   */
  method NullValueIsStored() returns (got: Nullable<int>, present: bool, absent: bool)
    ensures got == Null && present && !absent
  {
    var hm := new SimpleHashMap<int, int>(IntHash);
    var _ := hm.Put(Obj(7), Null);
    got := hm.Get(Obj(7));
    present := hm.ContainsKey(Obj(7));
    absent := hm.ContainsKey(Obj(8));
  }

  /**
   * Putting a key twice returns the first value the second time and counts
   * the key once; removing it returns the second value and empties the map.
   */
  method OverwriteThenRemove() returns (first: Nullable<int>, second: Nullable<int>, n: int,
                                        removed: Nullable<int>, empty: bool)
    ensures first == Null && second == Obj(1) && n == 1
    ensures removed == Obj(2) && empty
  {
    var hm := new SimpleHashMap<int, int>(IntHash);
    first := hm.Put(Obj(5), Obj(1));
    second := hm.Put(Obj(5), Obj(2));
    n := hm.Size();
    removed := hm.Remove(Obj(5));
    empty := hm.IsEmpty();
  }

  /**
   * The null key is stored like any other key: it hashes to 0, so its node
   * is the only node of bucket 0, with the cached hash 0.
   */
  method NullKey() returns (got: Nullable<int>, bucket: Chain<int, int>)
    ensures got == Obj(3)
    ensures bucket == [Node(0, Null, Obj(3))]
  {
    var hm := new SimpleHashMap<int, int>(IntHash);
    var _ := hm.Put(Null, Obj(3));
    got := hm.Get(Null);
    bucket := hm.table[0];
    assert KeyStored(IntHash, hm.table[..], Null);
    assert hm.table[..][0] == bucket;
    assert forall j :: 0 <= j < |bucket| ==> bucket[j].key in hm.contents;
  }

  /** The map after putting keys 0 to n - 1, key j with value 100 + j. */
  ghost function Entries(n: nat): map<Nullable<int>, Nullable<int>>
  {
    if n == 0 then map[] else Entries(n - 1)[Obj(n - 1) := Obj(100 + n - 1)]
  }

  /** Entries(n) holds exactly the keys 0 to n - 1, each with its value. */
  lemma {:induction false} EntriesHold(n: nat)
    ensures forall k :: k in Entries(n) <==> k.Obj? && 0 <= k.value < n
    ensures forall j :: 0 <= j < n ==> Entries(n)[Obj(j)] == Obj(100 + j)
  {
    if n > 0 {
      EntriesHold(n - 1);
    }
  }

  /** A fresh map after putting keys 0 to 11, none of which overflows the 16 buckets. */
  method PutTwelve() returns (hm: SimpleHashMap<int, int>)
    ensures fresh(hm) && fresh(hm.table) && hm.hashCode == IntHash
    ensures hm.Valid() && hm.table.Length == 16 && hm.threshold == 12 && hm.size == 12
    ensures hm.contents == Entries(12)
  {
    hm := new SimpleHashMap<int, int>(IntHash);
    var i := 0;
    while i < 12
      invariant 0 <= i <= 12
      invariant fresh(hm.table)
      invariant hm.Valid() && hm.table.Length == 16 && hm.threshold == 12 && hm.size == i
      invariant hm.contents == Entries(i)
    {
      EntriesHold(i);
      var _ := hm.Put(Obj(i), Obj(100 + i));
      i := i + 1;
    }
  }

  /**
   * Twelve keys fit the 16 initial buckets (threshold 12); the thirteenth
   * passes the threshold and doubles the table to 32 buckets, threshold 24,
   * and every key, read back with `get`, keeps its value.
   */
  method ThirteenthKeyResizes() returns (before: int, after: int, threshold: int, n: int,
                                         values: seq<Nullable<int>>)
    ensures before == 16 && after == 32 && threshold == 24 && n == 13
    ensures values == seq(13, j => Obj(100 + j))
  {
    var hm := PutTwelve();
    before := hm.table.Length;
    EntriesHold(12);
    PutPastThreshold(hm, Obj(12), Obj(112));
    after := hm.table.Length;
    threshold := hm.threshold;
    n := hm.Size();
    values := GetAll(hm, 13);
  }

  /** A new key put into a map loaded up to its threshold doubles the table. */
  method PutPastThreshold(hm: SimpleHashMap<int, int>, key: Nullable<int>, value: Nullable<int>)
    requires hm.Valid() && key !in hm.contents && hm.size == hm.threshold && hm.size < MaxEntries
    modifies hm, hm.table
    ensures hm.Valid() && hm.contents == old(hm.contents)[key := value] && hm.size == old(hm.size) + 1
    ensures hm.table.Length == 2 * old(hm.table.Length)
  {
    var _ := hm.Put(key, value);
  }

  /** The values `get` gives for keys 0 to n - 1 of a map holding Entries(n). */
  method GetAll(hm: SimpleHashMap<int, int>, n: nat) returns (values: seq<Nullable<int>>)
    requires hm.Valid() && hm.contents == Entries(n)
    ensures values == seq(n, j => Obj(100 + j))
  {
    EntriesHold(n);
    values := [];
    for i := 0 to n
      invariant values == seq(i, j => Obj(100 + j))
    {
      var v := hm.Get(Obj(i));
      values := values + [v];
    }
  }
}
