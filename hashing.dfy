/**
 * Hashing and bucket indexing of SimpleHashMap.
 *
 * A Java `int` is modelled by its 32-bit pattern read as an unsigned number
 * (a `Word`).  The only operations the map applies to hashes are `^`, `>>>`
 * and `&`, which act on the bit pattern alone, so this reading loses nothing.
 * The bitwise operators are written out bit by bit on natural numbers.
 */
module Hashing {
  import opened Nullables

  /** The initial number of buckets (DEFAULT_CAPACITY). */
  const DefaultCapacity: int := 16

  /**
   * The largest power of two a Java array length (an `int`) can reach by
   * doubling from 16; one more doubling overflows.
   */
  const MaxCapacity: int := 0x4000_0000

  /** The 32-bit pattern of a Java `int`. */
  type Word = x: int | 0 <= x < 0x1_0000_0000

  /** 2 to the power k. */
  function Pow2(k: nat): (r: nat)
    ensures r >= 1
  {
    if k == 0 then 1 else 2 * Pow2(k - 1)
  }

  /** The two powers of two the 32-bit patterns need. */
  lemma Pow2Values()
    ensures Pow2(16) == 0x1_0000 && Pow2(32) == 0x1_0000_0000
  {
    assert Pow2(4) == 16 by {
      assert Pow2(1) == 2 && Pow2(2) == 4 && Pow2(3) == 8;
    }
    assert Pow2(8) == 256 by {
      assert Pow2(5) == 32 && Pow2(6) == 64 && Pow2(7) == 128;
    }
    assert Pow2(12) == 4096 by {
      assert Pow2(9) == 512 && Pow2(10) == 1024 && Pow2(11) == 2048;
    }
    assert Pow2(16) == 0x1_0000 by {
      assert Pow2(13) == 8192 && Pow2(14) == 16384 && Pow2(15) == 32768;
    }
    Pow2Add(16, 16);
  }

  lemma {:induction false} Pow2Add(k: nat, j: nat)
    ensures Pow2(k + j) == Pow2(k) * Pow2(j)
  {
    if k > 0 {
      Pow2Add(k - 1, j);
    }
  }

  /** n is a power of two: the shape every bucket array has. */
  predicate IsPow2(n: int)
    decreases if n < 1 then 0 else n
  {
    n == 1 || (n > 1 && n % 2 == 0 && IsPow2(n / 2))
  }

  /** Bitwise AND (Java `&`) on non-negative numbers. */
  function And(a: nat, b: nat): (r: nat)
    ensures r <= a && r <= b
  {
    if a == 0 || b == 0 then 0
    else 2 * And(a / 2, b / 2) + (if a % 2 == 1 && b % 2 == 1 then 1 else 0)
  }

  /** Bitwise XOR (Java `^`) on non-negative numbers. */
  function Xor(a: nat, b: nat): (r: nat)
    decreases a + b
  {
    if a == 0 then b
    else if b == 0 then a
    else 2 * Xor(a / 2, b / 2) + (if a % 2 != b % 2 then 1 else 0)
  }

  /** Logical right shift (Java `>>>`) of a bit pattern by k places. */
  function ShiftRight(a: nat, k: nat): (r: nat)
  {
    if k == 0 then a else ShiftRight(a / 2, k - 1)
  }

  /** XOR of two k-bit patterns is a k-bit pattern. */
  lemma {:induction false} XorBound(a: nat, b: nat, k: nat)
    requires a < Pow2(k) && b < Pow2(k)
    ensures Xor(a, b) < Pow2(k)
    decreases a + b
  {
    if a != 0 && b != 0 {
      XorBound(a / 2, b / 2, k - 1);
    }
  }

  /** Shifting right by k clears exactly the patterns below 2^k. */
  lemma {:induction false} ShiftRightZero(a: nat, k: nat)
    ensures ShiftRight(a, k) == 0 <==> a < Pow2(k)
  {
    if k > 0 {
      ShiftRightZero(a / 2, k - 1);
    }
  }

  /** A shifted 32-bit pattern is still a 32-bit pattern. */
  lemma {:induction false} ShiftRightBound(a: nat, k: nat)
    ensures ShiftRight(a, k) <= a
  {
    if k > 0 {
      ShiftRightBound(a / 2, k - 1);
    }
  }

  /** Shifting distributes over XOR. */
  lemma {:induction false} ShiftRightXor(a: nat, b: nat, k: nat)
    ensures ShiftRight(Xor(a, b), k) == Xor(ShiftRight(a, k), ShiftRight(b, k))
  {
    if k > 0 {
      XorHalf(a, b);
      ShiftRightXor(a / 2, b / 2, k - 1);
    }
  }

  /** Dropping the lowest bit commutes with XOR. */
  lemma XorHalf(a: nat, b: nat)
    ensures Xor(a, b) / 2 == Xor(a / 2, b / 2)
  {
  }

  /** XOR with zero changes nothing. */
  lemma XorZero(a: nat)
    ensures Xor(a, 0) == a
  {
  }

  /** XOR-ing twice with the same pattern gives back the original. */
  lemma {:induction false} XorCancel(a: nat, b: nat)
    ensures Xor(Xor(a, b), b) == a
    decreases a + b
  {
    if a != 0 && b != 0 {
      XorCancel(a / 2, b / 2);
      var x := Xor(a / 2, b / 2);
      if x == 0 {
        assert Xor(x, b / 2) == b / 2;
      }
    } else if a == 0 && b != 0 {
      XorSelf(b);
    }
  }

  /** A pattern XOR-ed with itself is zero. */
  lemma {:induction false} XorSelf(a: nat)
    ensures Xor(a, a) == 0
  {
    if a != 0 {
      XorSelf(a / 2);
    }
  }

  /**
   * The spreading step of `hash`: `h ^ (h >>> 16)` folds the high half of the
   * pattern into the low half and leaves the high half as it was.
   */
  function Mix(h: Word): (r: Word)
    ensures ShiftRight(r, 16) == ShiftRight(h, 16)
  {
    var high := ShiftRight(h, 16);
    ShiftRightBound(h, 16);
    Pow2Values();
    XorBound(h, high, 32);
    ShiftRightBelow(h, 16, 16);
    ShiftRightXor(h, high, 16);
    ShiftRightZero(high, 16);
    XorZero(high);
    Xor(h, high)
  }

  /**
   * Java's `hash(key)`: 0 for a null key, otherwise the key's `hashCode`
   * spread by `Mix`.  `hashCode` stands for the key class's own method.
   */
  function Hash<K>(hashCode: K -> Word, key: Nullable<K>): (r: Word)
    ensures key.Null? ==> r == 0
    ensures key.Obj? ==> ShiftRight(r, 16) == ShiftRight(hashCode(key.value), 16)
    ensures key.Obj? ==> Mix(r) == hashCode(key.value)
  {
    match key
    case Null => 0
    case Obj(k) =>
      MixInvolution(hashCode(k));
      Mix(hashCode(k))
  }

  /** A pattern below 2^(k+j) shifted by k is below 2^j. */
  lemma {:induction false} ShiftRightBelow(a: nat, k: nat, j: nat)
    requires a < Pow2(k) * Pow2(j)
    ensures ShiftRight(a, k) < Pow2(j)
  {
    if k > 0 {
      assert Pow2(k) * Pow2(j) == 2 * (Pow2(k - 1) * Pow2(j));
      ShiftRightBelow(a / 2, k - 1, j);
    }
  }

  /**
   * Mixing is its own inverse, so it is a bijection on 32-bit patterns:
   * distinct hash codes never collide because of it.
   */
  lemma MixInvolution(h: Word)
    ensures Mix(Mix(h)) == h
  {
    XorCancel(h, ShiftRight(h, 16));
  }

  /** Java's `indexFor(hash, length)`: `hash & (length - 1)`. */
  function IndexFor(hash: Word, length: int): (r: nat)
    requires 1 <= length <= MaxCapacity
    ensures r < length
  {
    And(hash, length - 1)
  }

  /** On a power-of-two length the mask is exactly the remainder. */
  lemma {:induction false} IndexForIsMod(hash: Word, length: int)
    requires 1 <= length <= MaxCapacity && IsPow2(length)
    ensures IndexFor(hash, length) == hash % length
  {
    AndLowMask(hash, length);
  }

  lemma {:induction false} AndLowMask(a: nat, n: int)
    requires 1 <= n && IsPow2(n)
    ensures And(a, n - 1) == a % n
    decreases n
  {
    if n > 1 && a != 0 {
      var m := n / 2;
      AndLowMask(a / 2, m);
      assert And(a, n - 1) == 2 * ((a / 2) % m) + a % 2;
      DivModDouble(a, m);
    }
  }

  /** a mod 2m, built from (a div 2) mod m and the lowest bit. */
  lemma DivModDouble(a: nat, m: nat)
    requires m >= 1
    ensures a % (2 * m) == 2 * ((a / 2) % m) + a % 2
  {
    var q := (a / 2) / m;
    var r := (a / 2) % m;
    assert a / 2 == q * m + r;
    assert a == q * (2 * m) + (2 * r + a % 2);
    assert 0 <= 2 * r + a % 2 < 2 * m;
    ModUnique(a, 2 * m, q, 2 * r + a % 2);
  }

  lemma ModUnique(a: int, d: int, q: int, r: int)
    requires d >= 1 && a == q * d + r && 0 <= r < d
    ensures a % d == r
  {
    var q0, r0 := a / d, a % d;
    assert q0 * d + r0 == q * d + r;
    if q0 < q {
      assert (q - q0) * d == r0 - r;
      MulAtLeast(q - q0, d);
    } else if q < q0 {
      assert (q0 - q) * d == r - r0;
      MulAtLeast(q0 - q, d);
    }
  }

  lemma MulAtLeast(x: int, d: int)
    requires x >= 1 && d >= 1
    ensures x * d >= d
  {
  }

  /**
   * Doubling the bucket array sends the node in bucket i either to bucket
   * i or to bucket i + oldLength.
   */
  lemma IndexForDoubling(hash: Word, length: int)
    requires 1 <= length && 2 * length <= MaxCapacity && IsPow2(length)
    ensures IndexFor(hash, 2 * length) == IndexFor(hash, length)
         || IndexFor(hash, 2 * length) == IndexFor(hash, length) + length
  {
    DoubleIsPow2(length);
    IndexForIsMod(hash, length);
    IndexForIsMod(hash, 2 * length);
    ModDoubling(hash, length);
  }

  lemma ModDoubling(a: nat, n: int)
    requires n >= 1
    ensures a % (2 * n) == a % n || a % (2 * n) == a % n + n
  {
    var q, r := a / (2 * n), a % (2 * n);
    assert a == q * (2 * n) + r;
    assert q * (2 * n) == (2 * q) * n;
    if r < n {
      ModUnique(a, n, 2 * q, r);
    } else {
      assert (2 * q) * n + r == (2 * q + 1) * n + (r - n);
      ModUnique(a, n, 2 * q + 1, r - n);
    }
  }

  /** Doubling a power of two gives a power of two. */
  lemma DoubleIsPow2(n: int)
    requires IsPow2(n)
    ensures IsPow2(2 * n)
  {
    assert (2 * n) / 2 == n;
  }

  /** Of two powers of two, the smaller is at most half the larger. */
  lemma {:induction false} Pow2Gap(n: int, m: int)
    requires IsPow2(n) && IsPow2(m) && n < m
    ensures 2 * n <= m
    decreases m
  {
    if n > 1 {
      Pow2Gap(n / 2, m / 2);
    }
  }

  lemma {:induction false} Pow2IsPow2(k: nat)
    ensures IsPow2(Pow2(k))
  {
    if k > 0 {
      Pow2IsPow2(k - 1);
      assert Pow2(k) / 2 == Pow2(k - 1);
    }
  }

  /** A bucket array below the maximum capacity can still double. */
  lemma RoomToDouble(n: int)
    requires IsPow2(n) && n < MaxCapacity
    ensures 2 * n <= MaxCapacity
  {
    Pow2Values();
    Pow2Add(30, 2);
    assert Pow2(2) == 4;
    Pow2IsPow2(30);
    Pow2Gap(n, MaxCapacity);
  }

  /** Java's `(int) (capacity * 0.75f)` for the power-of-two capacities in use. */
  function Threshold(capacity: nat): (r: nat)
    ensures 4 * r <= 3 * capacity < 4 * r + 4
  {
    capacity * 3 / 4
  }
}
