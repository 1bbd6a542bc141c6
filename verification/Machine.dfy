/** Machine integers as the C++ code sees them: widths, wrap-around and truncating division. */
module Machine {

  const TWO_32 := 0x1_0000_0000
  const TWO_63 := 0x8000_0000_0000_0000
  const TWO_64 := 0x1_0000_0000_0000_0000
  const TWO_128 := 0x1_0000_0000_0000_0000_0000_0000_0000_0000

  const INT64_MAX := TWO_63 - 1
  const INT64_MIN := -TWO_63

  type byte = x: int | 0 <= x < 0x100
  type int64 = x: int | -0x8000_0000_0000_0000 <= x < 0x8000_0000_0000_0000
  type uint32 = x: int | 0 <= x < 0x1_0000_0000
  type uint64 = x: int | 0 <= x < 0x1_0000_0000_0000_0000
  type uint128 = x: int | 0 <= x < 0x1_0000_0000_0000_0000_0000_0000_0000_0000

  /** Conversion of any integer to uint64_t. */
  function Wrap64(x: int): uint64 {
    x % TWO_64
  }

  /** Conversion of any integer to uint32_t. */
  function Wrap32(x: int): uint32 {
    x % TWO_32
  }

  /** The two's-complement word of a signed number. */
  function EncodeTwosComp(v: int64): uint64 {
    if v < 0 then v + TWO_64 else v
  }

  /** Reading a two's-complement word as a signed number. */
  function DecodeTwosComp(u: uint64): int64 {
    if u < TWO_63 then u else u - TWO_64
  }

  /** Integer division as C++ defines it: the quotient is truncated toward zero. */
  function TruncDiv(a: int, b: int): int
    requires b != 0
  {
    if a >= 0 then
      if b > 0 then a / b else -(a / -b)
    else
      if b > 0 then -(-a / b) else -a / -b
  }

  /** Remainder as C++ defines it: it has the sign of the dividend. */
  function TruncMod(a: int, b: int): int
    requires b != 0
  {
    a - b * TruncDiv(a, b)
  }

  function Abs(a: int): nat {
    if a < 0 then -a else a
  }

  lemma ProductBound(a: nat, b: nat, aMax: nat, bMax: nat)
    requires a <= aMax && b <= bMax
    ensures 0 <= a * b <= aMax * bMax
  {
    assert a * b <= a * bMax <= aMax * bMax;
  }

  lemma MulAtLeast(b: nat, d: int)
    requires d >= 1
    ensures b * d >= b
  {
  }

  /** What Euclidean division of naturals gives. */
  lemma NatDivision(a: nat, b: nat)
    requires b > 0
    ensures a == b * (a / b) + a % b && 0 <= a % b < b
    ensures 0 <= b * (a / b) <= a
    ensures 0 <= a / b <= a
  {
    var k := a / b;
    if k > 0 {
      MulAtLeast(k, b);
    }
  }

  /** Quotient and remainder are determined by the division identity. */
  lemma DivModUnique(a: int, b: nat, q: int, r: nat)
    requires b > 0
    requires a == b * q + r && r < b
    ensures q == a / b && r == a % b
  {
    var d := q - a / b;
    assert b * d == a % b - r;
    if d > 0 {
      MulAtLeast(b, d);
    } else if d < 0 {
      MulAtLeast(b, -d);
    }
  }

  /** The truncated quotient is the only one whose remainder is small and has the dividend's sign. */
  lemma TruncUnique(a: int, b: int, q: int, r: int)
    requires b != 0
    requires a == b * q + r
    requires Abs(r) < Abs(b)
    requires r == 0 || (r < 0 <==> a < 0)
    ensures q == TruncDiv(a, b) && r == TruncMod(a, b)
  {
    var n, m := Abs(a), Abs(b);
    var s := if (a < 0) == (b < 0) then q else -q;
    assert n == m * s + Abs(r);
    DivModUnique(n, m, s, Abs(r));
  }

  /** The truncated quotient and remainder do satisfy the division identity. */
  lemma TruncFacts(a: int, b: int)
    requires b != 0
    ensures a == b * TruncDiv(a, b) + TruncMod(a, b)
    ensures Abs(TruncMod(a, b)) < Abs(b)
    ensures TruncMod(a, b) == 0 || (TruncMod(a, b) < 0 <==> a < 0)
    ensures Abs(TruncDiv(a, b)) == Abs(a) / Abs(b)
    ensures Abs(TruncMod(a, b)) == Abs(a) % Abs(b)
  {
    hide TruncDiv;
    var k, r := Abs(a) / Abs(b), Abs(a) % Abs(b);
    NatDivision(Abs(a), Abs(b));
    TruncDivCases(a, b);
    SignedProducts(Abs(b), k);
    assert b * TruncDiv(a, b) == if a < 0 then -(Abs(b) * k) else Abs(b) * k;
  }

  lemma TruncDivCases(a: int, b: int)
    requires b != 0
    ensures TruncDiv(a, b) == if (a < 0) == (b < 0) then Abs(a) / Abs(b) else -(Abs(a) / Abs(b))
  {
  }

  lemma SignedProducts(m: int, k: int)
    ensures -m * k == -(m * k)
    ensures m * -k == -(m * k)
    ensures -m * -k == m * k
  {
  }

  function Signed(u: int, isNeg: bool): int {
    if isNeg then -u else u
  }

  /** Products and truncated quotients are computed on magnitudes, with the sign put back last. */
  lemma SignedMagnitudes(x: int, y: int)
    ensures Signed(Abs(x) * Abs(y), (x < 0) != (y < 0)) == x * y
    ensures y != 0 ==> Signed(Abs(x) / Abs(y), (x < 0) != (y < 0)) == TruncDiv(x, y)
  {
    SignedProducts(Abs(x), Abs(y));
  }

  lemma SignedRemainder(x: int, y: int, quotient: nat)
    requires y != 0
    ensures Signed(Abs(x) - quotient * Abs(y), x < 0) == x - y * Signed(quotient, (x < 0) != (y < 0))
  {
    SignedProducts(Abs(y), quotient);
  }

  // ----- Powers of two -----

  function Pow2(n: nat): (p: nat)
    ensures p >= 1
  {
    if n == 0 then 1 else 2 * Pow2(n - 1)
  }

  lemma {:induction false} Pow2Sum(m: nat, n: nat)
    ensures Pow2(m + n) == Pow2(m) * Pow2(n)
    decreases m
  {
    if m > 0 {
      Pow2Sum(m - 1, n);
    }
  }

  lemma Pow2Values()
    ensures Pow2(30) == 0x4000_0000
    ensures Pow2(63) == TWO_63
    ensures Pow2(64) == TWO_64
  {
    assert Pow2(8) == 0x100;
    assert Pow2(15) == 0x8000;
    hide Pow2;
    Pow2Sum(15, 15);
    Pow2Sum(8, 8);
    Pow2Sum(16, 16);
    Pow2Sum(16, 15);
    Pow2Sum(32, 31);
    Pow2Sum(32, 32);
  }

  lemma {:induction false} Pow2Monotone(m: nat, n: nat)
    requires m <= n
    ensures Pow2(m) <= Pow2(n)
    decreases n - m
  {
    if m < n {
      Pow2Monotone(m + 1, n);
    }
  }

  lemma Pow2Zero()
    ensures Pow2(0) == 1
  {
  }
}
