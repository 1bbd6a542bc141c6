/**
 Ring storage: wrapping indices are reduced to the slots of an array by a power-of-two length.
 */
module Slots {
  import opened Machine

  /** The largest capacity an allocation can provide. */
  const MAX_CAPACITY := 0x4000_0000_0000_0000

  /** The largest power of two that a 32-bit count can reach. */
  const MAX_CHUNK := 0x8000_0000

  ghost predicate IsPowerOfTwo(c: nat) {
    exists k: nat :: k <= 62 && c == Pow2(k)
  }

  lemma PowerBound(c: nat)
    requires IsPowerOfTwo(c)
    ensures 0 < c <= MAX_CAPACITY
  {
    var k: nat :| k <= 62 && c == Pow2(k);
    Pow2Values();
    Pow2Monotone(k, 62);
    Pow2Sum(62, 2);
    assert Pow2(2) == 4;
  }

  lemma PowerDividesWord(c: nat)
    requires IsPowerOfTwo(c)
    ensures exists q: nat :: TWO_64 == c * q
  {
    var k: nat :| k <= 62 && c == Pow2(k);
    Pow2Values();
    Pow2Sum(k, 64 - k);
    hide Pow2;
    assert TWO_64 == c * Pow2(64 - k);
  }

  lemma PowerDividesHalfWord(c: nat) returns (q: nat)
    requires IsPowerOfTwo(c) && c <= MAX_CHUNK
    ensures TWO_32 == c * q
  {
    var k: nat :| k <= 62 && c == Pow2(k);
    Pow2Values();
    assert Pow2(2) == 4 && Pow2(32) == 2 * (2 * Pow2(30));
    if k > 31 {
      Pow2Monotone(32, k);
    }
    hide Pow2;
    Pow2Sum(30, 2);
    Pow2Sum(k, 32 - k);
    q := Pow2(32 - k);
  }

  lemma DoublePower(c: nat)
    requires IsPowerOfTwo(c) && 2 * c <= MAX_CAPACITY
    ensures IsPowerOfTwo(2 * c)
  {
    var k: nat :| k <= 62 && c == Pow2(k);
    Pow2Sum(62, 2);
    Pow2Values();
    assert Pow2(2) == 4;
    if k < 62 {
      assert 2 * c == Pow2(k + 1);
    }
  }

  // ----- Slots -----

  /** The slot of index x, which may lie outside the 64-bit range. */
  function Slot(x: int, c: nat): (s: nat)
    requires c > 0
    ensures s < c
  {
    x % c
  }

  lemma SlotPlusMultiple(x: int, c: nat, q: int)
    requires c > 0
    ensures Slot(x + c * q, c) == Slot(x, c)
  {
    var r := x % c;
    var d := x / c;
    assert x == c * d + r;
    assert x + c * q == c * (d + q) + r;
    DivModUnique(x + c * q, c, d + q, r);
  }

  lemma ProductRegrouped(c: int, q: int, w: int)
    ensures c * q * w == -(c * -(q * w))
  {
  }

  /** Wrapping to 64 bits moves an index by a multiple of the capacity. */
  lemma WrapIsMultiple(x: int, c: nat) returns (k: int)
    requires IsPowerOfTwo(c)
    ensures c > 0 && Wrap64(x) == x + c * k
  {
    PowerBound(c);
    PowerDividesWord(c);
    var q: nat :| TWO_64 == c * q;
    var w := x / TWO_64;
    assert x == Wrap64(x) + TWO_64 * w;
    k := -(q * w);
    ProductRegrouped(c, q, w);
  }

  /** Wrapping to 64 bits does not change the slot. */
  lemma WrapKeepsSlot(x: int, c: nat)
    requires IsPowerOfTwo(c)
    ensures c > 0 && Slot(Wrap64(x), c) == Slot(x, c)
  {
    var k := WrapIsMultiple(x, c);
    SlotPlusMultiple(x, c, k);
  }

  /** The same for 32-bit indices and capacities up to 2^31. */
  lemma Wrap32IsMultiple(x: int, c: nat) returns (k: int)
    requires IsPowerOfTwo(c) && c <= MAX_CHUNK
    ensures c > 0 && Wrap32(x) == x + c * k
  {
    PowerBound(c);
    var q := PowerDividesHalfWord(c);
    var w := x / TWO_32;
    assert x == Wrap32(x) + TWO_32 * w;
    k := -(q * w);
    ProductRegrouped(c, q, w);
  }

  lemma Wrap32KeepsSlot(x: int, c: nat)
    requires IsPowerOfTwo(c) && c <= MAX_CHUNK
    ensures c > 0 && Slot(Wrap32(x), c) == Slot(x, c)
  {
    var k := Wrap32IsMultiple(x, c);
    SlotPlusMultiple(x, c, k);
  }

  /** Indices less than a capacity apart have different slots. */
  lemma SlotsDistinct(x: int, y: int, c: nat)
    requires c > 0 && x < y < x + c
    ensures Slot(x, c) != Slot(y, c)
  {
    if Slot(x, c) == Slot(y, c) {
      var d := y / c - x / c;
      assert y - x == c * d;
      if d > 0 {
        MulAtLeast(c, d);
      } else {
        MulAtLeast(c, 1 - d);
      }
    }
  }

  // ----- Views -----

  /** The n elements from index b on in the slots a. */
  function View<T>(a: seq<T>, b: int, n: nat): (s: seq<T>)
    requires n <= |a|
    ensures |s| == n && forall i :: 0 <= i < n ==> s[i] == a[Slot(b + i, |a|)]
  {
    seq(n, i requires 0 <= i < n => a[Slot(b + i, |a|)])
  }

  /** Writing the slot of element p changes that element and no other. */
  lemma ViewAfterWrite<T>(a: seq<T>, b: int, n: nat, p: nat, v: T)
    requires p < n <= |a|
    ensures View(a[Slot(b + p, |a|) := v], b, n) == View(a, b, n)[p := v]
  {
    var t := View(a[Slot(b + p, |a|) := v], b, n);
    forall i | 0 <= i < n
      ensures t[i] == View(a, b, n)[p := v][i]
    {
      if i != p {
        SlotsDistinct(b + (if i < p then i else p), b + (if i < p then p else i), |a|);
      }
    }
  }

  /** Shortening a view at either end. */
  lemma ViewSlice<T>(a: seq<T>, b: int, n: nat, f: nat, l: nat)
    requires f <= l <= n <= |a|
    ensures View(a, b, n)[f..l] == View(a, b + f, l - f)
  {
    var s, t := View(a, b, n)[f..l], View(a, b + f, l - f);
    forall i | 0 <= i < l - f
      ensures s[i] == t[i]
    {
      assert s[i] == View(a, b, n)[f + i];
      assert b + (f + i) == (b + f) + i;
    }
  }

  /** Views from indices that agree modulo 2^64 are the same. */
  lemma ViewWraps<T>(a: seq<T>, b: int, n: nat)
    requires n <= |a| && IsPowerOfTwo(|a|)
    ensures View(a, Wrap64(b), n) == View(a, b, n)
  {
    var s, t := View(a, Wrap64(b), n), View(a, b, n);
    var k := WrapIsMultiple(b, |a|);
    hide Slot, Wrap64;
    forall i | 0 <= i < n
      ensures s[i] == t[i]
    {
      SlotPlusMultiple(b + i, |a|, k);
    }
  }

  lemma View32Wraps<T>(a: seq<T>, b: int, n: nat)
    requires n <= |a| <= MAX_CHUNK && IsPowerOfTwo(|a|)
    ensures View(a, Wrap32(b), n) == View(a, b, n)
  {
    var s, t := View(a, Wrap32(b), n), View(a, b, n);
    var k := Wrap32IsMultiple(b, |a|);
    hide Slot, Wrap32;
    forall i | 0 <= i < n
      ensures s[i] == t[i]
    {
      SlotPlusMultiple(b + i, |a|, k);
    }
  }

  lemma AppendView<T>(a: seq<T>, b: int, n: nat, v: T)
    requires n < |a|
    ensures View(a[Slot(b + n, |a|) := v], b, n + 1) == View(a, b, n) + [v]
  {
    ViewAfterWrite(a, b, n + 1, n, v);
    ViewSlice(a, b, n + 1, 0, n);
    hide Slot;
    var w := View(a, b, n + 1);
    assert w[n := v] == w[0..n] + [v];
  }

  lemma PrependView<T>(a: seq<T>, b: uint64, n: nat, v: T)
    requires n < |a| && IsPowerOfTwo(|a|)
    ensures View(a[Slot(b - 1, |a|) := v], Wrap64(b - 1), n + 1) == [v] + View(a, b, n)
  {
    ViewWraps(a[Slot(b - 1, |a|) := v], b - 1, n + 1);
    ViewAfterWrite(a, b - 1, n + 1, 0, v);
    ViewSlice(a, b - 1, n + 1, 1, n + 1);
    hide Slot, Wrap64;
    var w := View(a, b - 1, n + 1);
    assert w[0 := v] == [v] + w[1..n + 1];
  }
}
