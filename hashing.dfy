/**
 * The integer types LongMapImpl works with, Java's `Long.hashCode`, and the
 * bucket a key is placed in.
 */
module Hashing {

  const TWO_31: int := 0x8000_0000
  const TWO_32: int := 0x1_0000_0000
  const TWO_64: int := 0x1_0000_0000_0000_0000

  /** Java's 64-bit signed `long`, the key type of the map. */
  type Long = x: int | -0x8000_0000_0000_0000 <= x < 0x8000_0000_0000_0000

  /** Java's 32-bit signed `int`, the type of a hash code. */
  type Int32 = x: int | -0x8000_0000 <= x < 0x8000_0000

  /** 2 to the power n. */
  function Pow2(n: nat): (r: nat)
    ensures 1 <= r
  {
    if n == 0 then 1 else 2 * Pow2(n - 1)
  }

  /** A capacity times 2 to the power n + 1 is twice the capacity times 2 to the power n. */
  lemma Pow2Double(c: nat, n: nat)
    ensures c * Pow2(n + 1) == 2 * (c * Pow2(n))
  {
    var p := Pow2(n);
    assert Pow2(n + 1) == 2 * p;
    assert c * (2 * p) == 2 * (c * p);
  }

  /** Bitwise exclusive or of two non-negative integers, one bit at a time. */
  function BitXor(a: nat, b: nat): nat
    decreases a + b
  {
    if a == 0 then b
    else if b == 0 then a
    else (a + b) % 2 + 2 * BitXor(a / 2, b / 2)
  }

  /** Exclusive or with all n low bits set flips each of those bits. */
  lemma {:induction false} BitXorAllOnes(a: nat, n: nat)
    requires a < Pow2(n)
    ensures BitXor(a, Pow2(n) - 1) == Pow2(n) - 1 - a
  {
    if n != 0 && a != 0 {
      var p := Pow2(n - 1);
      var m := 2 * p - 1;
      assert Pow2(n) - 1 == m && m != 0;
      assert m / 2 == p - 1;
      BitXorAllOnes(a / 2, n - 1);
      var h, r := a / 2, a % 2;
      assert a == 2 * h + r && (a + m) % 2 == 1 - r;
      assert BitXor(h, p - 1) == p - 1 - h;
      assert BitXor(a, m) == (1 - r) + 2 * (p - 1 - h);
    }
  }

  /** The exclusive or of two n-bit numbers is an n-bit number. */
  lemma {:induction false} BitXorBound(a: nat, b: nat, n: nat)
    requires a < Pow2(n) && b < Pow2(n)
    ensures BitXor(a, b) < Pow2(n)
    decreases a + b
  {
    if a != 0 && b != 0 {
      BitXorBound(a / 2, b / 2, n - 1);
    }
  }

  /** Java's narrowing cast `(int)`: keep the low 32 bits, read them as two's complement. */
  function ToInt32(x: int): (r: Int32)
    ensures (r - x) % TWO_32 == 0
  {
    var low := x % TWO_32;
    if low < TWO_31 then low else low - TWO_32
  }

  /**
   * `Long.hashCode(key)`: `(int)(key ^ (key >>> 32))`, that is, the low and
   * the high 32-bit halves of the key's two's complement form XOR-ed and read
   * as a signed int. A key that fits in 31 bits is its own hash code.
   */
  function HashCode(key: Long): (h: Int32)
    ensures 0 <= key < TWO_31 ==> h == key
  {
    var bits := if key < 0 then key + TWO_64 else key;
    ToInt32(BitXor(bits % TWO_32, bits / TWO_32))
  }

  /**
   * The XOR of the two halves is already a 32-bit value, so the `(int)` cast
   * in `HashCode` only reads its top bit as the sign and drops no bits.
   */
  lemma HashCodeReadsXorAsSigned(key: Long)
    ensures var bits := if key < 0 then key + TWO_64 else key;
      var x := BitXor(bits % TWO_32, bits / TWO_32);
      x < TWO_32 && HashCode(key) == if x < TWO_31 then x else x - TWO_32
  {
    var bits := if key < 0 then key + TWO_64 else key;
    Pow2Literal();
    BitXorBound(bits % TWO_32, bits / TWO_32, 32);
  }

  /** A key and its bitwise complement `~key` (that is, `-key - 1`) share a hash code. */
  lemma ComplementSharesHashCode(key: Long)
    requires 0 <= key < TWO_31
    ensures HashCode(-key - 1) == HashCode(key) == key
  {
    var bits := -key - 1 + TWO_64;
    assert TWO_32 == Pow2(32) by { Pow2Literal(); }
    assert bits % TWO_32 == TWO_32 - 1 - key;
    assert bits / TWO_32 == TWO_32 - 1;
    BitXorCommutes(TWO_32 - 1 - key, TWO_32 - 1);
    BitXorAllOnes(TWO_32 - 1 - key, 32);
  }

  /** Powers of two multiply by adding their exponents. */
  lemma {:induction false} Pow2Add(a: nat, b: nat)
    ensures Pow2(a + b) == Pow2(a) * Pow2(b)
  {
    if a > 0 {
      Pow2Add(a - 1, b);
      assert Pow2(a + b) == 2 * Pow2(a - 1 + b);
    }
  }

  lemma Pow2Literal()
    ensures Pow2(32) == TWO_32
  {
    assert Pow2(2) == 4;
    Pow2Add(2, 2);
    Pow2Add(4, 4);
    Pow2Add(8, 8);
    Pow2Add(16, 16);
  }

  /** Exclusive or does not depend on the order of its operands. */
  lemma {:induction false} BitXorCommutes(a: nat, b: nat)
    ensures BitXor(a, b) == BitXor(b, a)
    decreases a + b
  {
    if a != 0 && b != 0 {
      BitXorCommutes(a / 2, b / 2);
    }
  }

  /**
   * The bucket of `key` in a table of `length` buckets: the hash code reduced
   * modulo the length, with a remainder that is never negative.
   */
  function BucketIndex(key: Long, length: nat): (i: nat)
    requires 0 < length
    ensures i < length
    ensures 0 <= key < length && key < TWO_31 ==> i == key
  {
    HashCode(key) % length
  }
}
