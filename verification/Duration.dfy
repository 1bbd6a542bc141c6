/**
 Signed, saturating durations: a pair of whole seconds and quarter-nanosecond ticks, with two
 infinities. Every operation is specified by exact integer arithmetic on tick counts followed by
 one saturation.
 */
module Durations {
  import opened Machine
  import opened Wrappers

  const TICKS_PER_NANOSECOND := 4
  const TICKS_PER_SECOND := 4_000_000_000
  const INFINITE_LO := 0xFFFF_FFFF

  /** The representation: rep_hi_ in seconds, rep_lo_ as a non-negative offset in ticks. */
  datatype Rep = Rep(hi: int64, lo: uint32)

  const ZERO := Rep(0, 0)
  const INFINITE := Rep(INT64_MAX, INFINITE_LO)
  const NEG_INFINITE := Rep(INT64_MIN, INFINITE_LO)

  const MIN_TICKS := -TWO_63 * TICKS_PER_SECOND
  const MAX_TICKS := TWO_63 * TICKS_PER_SECOND - 1

  predicate IsInfinite(d: Rep) {
    d.lo == INFINITE_LO
  }

  predicate Valid(d: Rep) {
    d.lo < TICKS_PER_SECOND || d == INFINITE || d == NEG_INFINITE
  }

  predicate Finite(d: Rep) {
    d.lo < TICKS_PER_SECOND
  }

  // ----- The abstract value -----

  /** The tick count of a finite duration; the infinities rank just outside the finite range. */
  function Rank(d: Rep): int {
    if IsInfinite(d) then
      if d.hi < 0 then MIN_TICKS - 1 else MAX_TICKS + 1
    else
      d.hi * TICKS_PER_SECOND + d.lo
  }

  /** The duration closest to a tick count: itself when representable, else an infinity. */
  function Saturate(ticks: int): (d: Rep)
    ensures Valid(d)
    ensures MIN_TICKS <= ticks <= MAX_TICKS ==> Finite(d) && Rank(d) == ticks
  {
    if ticks > MAX_TICKS then INFINITE
    else if ticks < MIN_TICKS then NEG_INFINITE
    else Rep(ticks / TICKS_PER_SECOND, ticks % TICKS_PER_SECOND)
  }

  /** Ranks lose nothing: the representation is canonical. */
  lemma SaturateRank(d: Rep)
    requires Valid(d)
    ensures MIN_TICKS - 1 <= Rank(d) <= MAX_TICKS + 1
    ensures Finite(d) <==> MIN_TICKS <= Rank(d) <= MAX_TICKS
    ensures Saturate(Rank(d)) == d
  {
  }

  /** Saturation keeps the tick count within the ranks of the two infinities. */
  lemma SaturateClamps(ticks: int)
    ensures Valid(Saturate(ticks))
    ensures Rank(Saturate(ticks)) ==
      if ticks < MIN_TICKS then MIN_TICKS - 1 else if ticks > MAX_TICKS then MAX_TICKS + 1 else ticks
  {
  }

  // ----- Reference arithmetic -----

  function Sum(d: Rep, e: Rep): Rep {
    if IsInfinite(d) then d
    else if IsInfinite(e) then e
    else Saturate(Rank(d) + Rank(e))
  }

  function Difference(d: Rep, e: Rep): Rep {
    if IsInfinite(d) then d
    else if IsInfinite(e) then if e.hi >= 0 then NEG_INFINITE else INFINITE
    else Saturate(Rank(d) - Rank(e))
  }

  /** The infinity whose sign is the product of the signs of d and r. */
  function SignedInfinity(d: Rep, r: int): Rep {
    if (r < 0) != (d.hi < 0) then NEG_INFINITE else INFINITE
  }

  function Product(d: Rep, r: int64): Rep {
    if IsInfinite(d) then SignedInfinity(d, r) else Saturate(Rank(d) * r)
  }

  function Quotient(d: Rep, r: int64): Rep {
    if IsInfinite(d) || r == 0 then SignedInfinity(d, r) else Saturate(TruncDiv(Rank(d), r))
  }

  // ----- Comparison and negation -----

  predicate LessThan(l: Rep, r: Rep) {
    if l.hi != r.hi then l.hi < r.hi
    else if l.hi == INT64_MIN then Wrap32(l.lo + 1) < Wrap32(r.lo + 1)
    else l.lo < r.lo
  }

  /** The comparison operator is the order of tick counts, with the infinities at the ends. */
  lemma LessThanIsTickOrder(l: Rep, r: Rep)
    requires Valid(l) && Valid(r)
    ensures LessThan(l, r) <==> Rank(l) < Rank(r)
  {
  }

  predicate AtMost(l: Rep, r: Rep) {
    !LessThan(r, l)
  }

  function OppositeInfinity(d: Rep): Rep {
    if d.hi < 0 then INFINITE else NEG_INFINITE
  }

  function NegateAndSubtractOne(n: int64): int64 {
    if n < 0 then -(n + 1) else -n - 1
  }

  function Negate(d: Rep): Rep
    requires Valid(d)
  {
    if d.lo == 0 then
      if d.hi == INT64_MIN then INFINITE else Rep(-d.hi, 0)
    else if IsInfinite(d) then OppositeInfinity(d)
    else Rep(NegateAndSubtractOne(d.hi), TICKS_PER_SECOND - d.lo)
  }

  /** Negation is exact except that the least finite duration has no finite opposite. */
  lemma NegateIsExact(d: Rep)
    requires Valid(d)
    ensures Valid(Negate(d))
    ensures Finite(d) ==> Negate(d) == Saturate(-Rank(d))
    ensures Negate(INFINITE) == NEG_INFINITE && Negate(NEG_INFINITE) == INFINITE
    ensures Negate(Negate(d)) == d <==> Rank(d) != MIN_TICKS
  {
  }

  // ----- Laws of the infinities -----

  /** An infinite left operand stays, and an infinite right operand wins over a finite one. */
  lemma SumOfInfinities(d: Rep, e: Rep)
    requires Valid(d) && Valid(e)
    ensures Valid(Sum(d, e))
    ensures IsInfinite(d) ==> Rank(Sum(d, e)) == Rank(d)
    ensures Finite(d) && IsInfinite(e) ==> Rank(Sum(d, e)) == Rank(e)
    ensures Finite(d) || Finite(e) ==> Sum(d, e) == Sum(e, d)
  {
  }

  /** Subtracting is adding the negation, but for the one duration whose negation is not exact. */
  lemma DifferenceIsSumOfNegation(d: Rep, e: Rep)
    requires Valid(d) && Valid(e)
    ensures Valid(Difference(d, e)) && Valid(Negate(e))
    ensures Difference(d, e) == Sum(d, Negate(e)) <==> !(Rank(e) == MIN_TICKS && Finite(d) && Rank(d) < 0)
  {
    NegateIsExact(e);
  }

  /** A multiple or fraction of an infinity is the infinity with the product of the signs. */
  lemma ScaledInfinity(d: Rep, r: int64)
    requires Valid(d)
    ensures Valid(Product(d, r)) && Valid(Quotient(d, r))
    ensures IsInfinite(d) ==>
      && IsInfinite(Product(d, r)) && IsInfinite(Quotient(d, r))
      && (Rank(Product(d, r)) < 0 <==> (Rank(d) < 0) != (r < 0))
      && (Rank(Quotient(d, r)) < 0 <==> (Rank(d) < 0) != (r < 0))
    ensures r == 0 ==> IsInfinite(Quotient(d, r)) && (Rank(Quotient(d, r)) < 0 <==> Rank(d) < 0)
  {
  }

  function AbsDuration(d: Rep): Rep
    requires Valid(d)
  {
    if LessThan(d, ZERO) then Negate(d) else d
  }

  // ----- Factories -----

  function MakeNormalized(sec: int64, ticks: int64): Rep
    requires -TICKS_PER_SECOND < ticks < TICKS_PER_SECOND && (ticks < 0 ==> sec > INT64_MIN)
  {
    if ticks < 0 then Rep(sec - 1, ticks + TICKS_PER_SECOND) else Rep(sec, ticks)
  }

  /** A count of n-ths of a second. */
  function FromFractions(v: int64, n: nat): Rep
    requires 0 < n <= 1_000_000_000
  {
    FractionFits(v, n);
    MakeNormalized(TruncDiv(v, n), TruncDiv(TruncMod(v, n) * TICKS_PER_SECOND, n))
  }

  lemma FractionFits(v: int64, n: nat)
    requires 0 < n <= 1_000_000_000
    ensures var q, t := TruncDiv(v, n), TruncDiv(TruncMod(v, n) * TICKS_PER_SECOND, n);
      INT64_MIN <= q <= INT64_MAX && -TICKS_PER_SECOND < t < TICKS_PER_SECOND && (t < 0 ==> q > INT64_MIN)
    ensures INT64_MIN <= TruncMod(v, n) * TICKS_PER_SECOND <= INT64_MAX
  {
    TruncFacts(v, n);
    var r := TruncMod(v, n);
    TruncFacts(r * TICKS_PER_SECOND, n);
    hide TruncDiv, TruncMod;
    NatDivision(Abs(v), n);
    SmallFraction(Abs(r), n, Abs(r * TICKS_PER_SECOND) / n);
  }

  lemma SmallFraction(r: nat, n: nat, t: nat)
    requires r < n && t == r * TICKS_PER_SECOND / n
    ensures t < TICKS_PER_SECOND
  {
    if t >= TICKS_PER_SECOND {
      NatDivision(r * TICKS_PER_SECOND, n);
      ProductBound(TICKS_PER_SECOND, n, t, n);
    }
  }

  /** Fractions of a second become the exact tick count, truncated toward zero, and never overflow. */
  lemma FractionsAreExact(v: int64, n: nat)
    requires 0 < n <= 1_000_000_000
    ensures Finite(FromFractions(v, n)) && Rank(FromFractions(v, n)) == TruncDiv(v * TICKS_PER_SECOND, n)
  {
    FractionFits(v, n);
    TruncFacts(v, n);
    var q, r := TruncDiv(v, n), TruncMod(v, n);
    TruncFacts(r * TICKS_PER_SECOND, n);
    var t, u := TruncDiv(r * TICKS_PER_SECOND, n), TruncMod(r * TICKS_PER_SECOND, n);
    hide TruncDiv, TruncMod;
    Regrouped(n, q, r, t, u);
    TruncUnique(v * TICKS_PER_SECOND, n, q * TICKS_PER_SECOND + t, u);
  }

  lemma Regrouped(n: int, q: int, r: int, t: int, u: int)
    requires r * TICKS_PER_SECOND == n * t + u
    ensures (n * q + r) * TICKS_PER_SECOND == n * (q * TICKS_PER_SECOND + t) + u
  {
  }

  /** A count of minutes or hours, of so many seconds each. */
  function FromMultiples(v: int64, seconds: nat): Rep
    requires seconds == 60 || seconds == 3600
  {
    if TruncDiv(INT64_MIN, seconds) <= v <= TruncDiv(INT64_MAX, seconds) then Rep(v * seconds, 0)
    else if v > 0 then INFINITE
    else Negate(INFINITE)
  }

  /** Minutes and hours saturate exactly when their ticks are not representable. */
  lemma MultiplesSaturate(v: int64, seconds: nat)
    requires seconds == 60 || seconds == 3600
    ensures FromMultiples(v, seconds) == Saturate(v * seconds * TICKS_PER_SECOND)
  {
  }

  // ----- 128-bit scaling -----

  /** The magnitude of a scalar, computed without negating INT64_MIN. */
  function MakeU128(a: int64): (u: uint128)
    ensures u == Abs(a)
  {
    if a < 0 then 1 + -(a + 1) else a
  }

  /** The magnitude of a finite duration in ticks. */
  function MakeU128Ticks(d: Rep): (u: uint128)
    requires Finite(d)
    ensures u == Abs(Rank(d))
  {
    if d.hi < 0 then
      -(d.hi + 1) * TICKS_PER_SECOND + Wrap32(TICKS_PER_SECOND - d.lo)
    else
      d.hi * TICKS_PER_SECOND + d.lo
  }

  const MAX_REP_HI_64 := 0x7735_9400

  /** Turns a magnitude and a sign back into a duration: exactly one saturation. */
  function MakeDurationFromU128(u: uint128, isNeg: bool): (d: Rep)
    ensures d == Saturate(Signed(u, isNeg))
  {
    var h64 := u / TWO_64;
    var l64 := u % TWO_64;
    HighWord(u, h64, l64);
    if h64 == 0 then
      var hi := l64 / TICKS_PER_SECOND;
      WithSign(hi, l64 - hi * TICKS_PER_SECOND, isNeg)
    else if h64 >= MAX_REP_HI_64 then
      if isNeg && h64 == MAX_REP_HI_64 && l64 == 0 then Rep(INT64_MIN, 0)
      else if isNeg then NEG_INFINITE else INFINITE
    else
      var hi := u / TICKS_PER_SECOND;
      SecondsFit(u);
      WithSign(Wrap64(hi), Wrap64(u - hi * TICKS_PER_SECOND), isNeg)
  }

  /** The high word alone decides representability, except for the least finite duration. */
  lemma HighWord(u: uint128, h64: int, l64: int)
    requires u == h64 * TWO_64 + l64 && 0 <= l64 < TWO_64
    ensures h64 < MAX_REP_HI_64 <==> u <= MAX_TICKS
    ensures h64 == MAX_REP_HI_64 && l64 == 0 <==> u == -MIN_TICKS
  {
  }

  lemma SecondsFit(u: nat)
    requires u <= MAX_TICKS
    ensures u / TICKS_PER_SECOND < TWO_63
    ensures Wrap64(u / TICKS_PER_SECOND) == u / TICKS_PER_SECOND
    ensures Wrap64(u - u / TICKS_PER_SECOND * TICKS_PER_SECOND) == u % TICKS_PER_SECOND
  {
  }

  function WithSign(hi: int64, lo: uint32, isNeg: bool): (d: Rep)
    requires hi >= 0 && lo < TICKS_PER_SECOND
    ensures d == Saturate(Signed(hi * TICKS_PER_SECOND + lo, isNeg))
  {
    if !isNeg then Rep(hi, lo)
    else if lo != 0 then Rep(-hi - 1, TICKS_PER_SECOND - lo)
    else Rep(-hi, lo)
  }

  datatype Operation = SafeMultiply | Divides

  /** The two operations ScaleFixed is instantiated with; SafeMultiply caps at the largest uint128. */
  function Apply(op: Operation, a: uint128, b: uint64): (q: uint128)
    requires op.Divides? ==> b != 0
  {
    match op
    case SafeMultiply =>
      if a < TWO_64 then
        ProductFits(a, b);
        if a < TWO_32 && b < TWO_32 then Wrap64(a * b) else a * b
      else if b == 0 then b
      else if a > (TWO_128 - 1) / b then TWO_128 - 1
      else
        ProductBelowLimit(a, b, TWO_128 - 1);
        a * b
    case Divides =>
      NatDivision(a, b);
      a / b
  }

  lemma ProductBelowLimit(a: nat, b: nat, limit: nat)
    requires b > 0 && a <= limit / b
    ensures 0 <= a * b <= limit
  {
    NatDivision(limit, b);
    ProductBound(a, b, limit / b, b);
  }

  lemma ProductFits(a: uint64, b: uint64)
    ensures 0 <= a * b < TWO_128
    ensures a < TWO_32 && b < TWO_32 ==> a * b < TWO_64
  {
    ProductBound(a, b, TWO_64 - 1, TWO_64 - 1);
    if a < TWO_32 && b < TWO_32 {
      ProductBound(a, b, TWO_32 - 1, TWO_32 - 1);
    }
  }

  function ScaleFixed(op: Operation, d: Rep, r: int64): Rep
    requires Finite(d)
    requires op.Divides? ==> r != 0
  {
    var q := Apply(op, MakeU128Ticks(d), MakeU128(r));
    MakeDurationFromU128(q, (d.hi < 0) != (r < 0))
  }

  /** Scaling by an integer is exact multiplication, or truncated division, then one saturation. */
  lemma ScaleFixedIsExact(op: Operation, d: Rep, r: int64)
    requires Finite(d)
    requires op.Divides? ==> r != 0
    ensures ScaleFixed(op, d, r) == match op case SafeMultiply => Product(d, r) case Divides => Quotient(d, r)
  {
    SignedMagnitudes(Rank(d), r);
    match op
    case Divides =>
    case SafeMultiply =>
      CappedProduct(Abs(Rank(d)), Abs(r));
      SaturateCapped(Abs(Rank(d)) * Abs(r), (d.hi < 0) != (r < 0));
  }

  lemma SaturateCapped(p: nat, isNeg: bool)
    ensures Saturate(Signed(if p < TWO_128 then p else TWO_128 - 1, isNeg)) == Saturate(Signed(p, isNeg))
  {
  }

  lemma CappedProduct(a: uint128, b: uint64)
    ensures Apply(SafeMultiply, a, b) == if a * b < TWO_128 then a * b else TWO_128 - 1
  {
    ProductBound(a, b, a, b);
    if a < TWO_64 {
      ProductFits(a, b);
    } else if b != 0 {
      var m := (TWO_128 - 1) / b;
      if a > m {
        ProductBound(m + 1, b, a, b);
      } else {
        ProductBound(a, b, m, b);
      }
    }
  }

  // ----- Division of a duration by a duration -----

  datatype Division = Division(q: int64, rem: Rep)

  /** Division by 1ns, 100ns, 1us or 1ms when the numerator cannot overflow the quotient. */
  function DivideBySubsecond(num: Rep, denLo: uint32, perSecond: int64): Option<Division>
    requires Finite(num)
    requires denLo > 0 && perSecond > 0 && denLo * perSecond == TICKS_PER_SECOND
    requires perSecond <= 1_000_000_000
  {
    if 0 <= num.hi < (INT64_MAX - TICKS_PER_SECOND) / perSecond then
      SubsecondQuotientFits(num, denLo, perSecond);
      Some(Division(num.hi * perSecond + num.lo / denLo, Rep(0, num.lo % denLo)))
    else
      None
  }

  lemma SubsecondQuotientFits(num: Rep, denLo: uint32, perSecond: int64)
    requires Finite(num)
    requires denLo > 0 && perSecond > 0
    requires 0 <= num.hi < (INT64_MAX - TICKS_PER_SECOND) / perSecond
    ensures 0 <= num.hi * perSecond + num.lo / denLo <= INT64_MAX
  {
    var m := (INT64_MAX - TICKS_PER_SECOND) / perSecond;
    NatDivision(INT64_MAX - TICKS_PER_SECOND, perSecond);
    ProductBound(num.hi, perSecond, m, perSecond);
    NatDivision(num.lo, denLo);
  }

  function DivideBySeconds(num: Rep, denHi: int64): Division
    requires Finite(num)
    requires denHi > 0
  {
    if num.hi >= 0 then
      if denHi == 1 then Division(num.hi, Rep(0, num.lo))
      else Division(num.hi / denHi, Rep(num.hi % denHi, num.lo))
    else
      var hi := if num.lo != 0 then num.hi + 1 else num.hi;
      var quotient := TruncDiv(hi, denHi);
      var remSec := TruncMod(hi, denHi);
      TruncFacts(hi, denHi);
      TruncDivShrinks(hi, denHi);
      var q := if remSec > 0 then quotient + 1 else quotient;
      var s := if remSec > 0 then remSec - denHi else remSec;
      Division(q, Rep(if num.lo != 0 then s - 1 else s, num.lo))
  }

  lemma TruncDivShrinks(a: int, b: int)
    requires a <= 0 < b
    ensures a <= TruncDiv(a, b) <= 0
  {
    NatDivision(-a, b);
  }

  /** The denominators that are recognised without 128-bit arithmetic. */
  function IDivFastPath(num: Rep, den: Rep): Option<Division>
    requires Valid(num) && Valid(den)
  {
    if IsInfinite(num) || IsInfinite(den) then None
    else if den == Rep(0, TICKS_PER_NANOSECOND) then
      DivideBySubsecond(num, den.lo, 1_000_000_000)
    else if den == Rep(0, 100 * TICKS_PER_NANOSECOND) then
      DivideBySubsecond(num, den.lo, 10_000_000)
    else if den == Rep(0, 1_000 * TICKS_PER_NANOSECOND) then
      DivideBySubsecond(num, den.lo, 1_000_000)
    else if den == Rep(0, 1_000_000 * TICKS_PER_NANOSECOND) then
      DivideBySubsecond(num, den.lo, 1_000)
    else if den.hi > 0 && den.lo == 0 then
      Some(DivideBySeconds(num, den.hi))
    else None
  }

  /** The general path: unsigned 128-bit division of magnitudes, the quotient clamped if asked. */
  function IntegerDivWide(satq: bool, num: Rep, den: Rep): Division
    requires Finite(num) && Finite(den) && den != ZERO
  {
    var numNeg := LessThan(num, ZERO);
    var quotientNeg := numNeg != LessThan(den, ZERO);
    var a := MakeU128Ticks(num);
    var b := MakeU128Ticks(den);
    var quotient := WideQuotient(satq, a, b, quotientNeg);
    Assemble(quotient, a - quotient * b, quotientNeg, numNeg)
  }

  /** The quotient of two magnitudes, limited to the int64 range when it must saturate. */
  function WideQuotient(satq: bool, a: nat, b: nat, isNeg: bool): (quotient: nat)
    requires b > 0
    ensures 0 <= quotient * b <= a
  {
    var q := a / b;
    ClampBelow(satq, q, isNeg);
    RemainderFits(a, b, if satq then ClampMagnitude(q, isNeg) else q);
    if satq then ClampMagnitude(q, isNeg) else q
  }

  function Assemble(quotient: nat, remainder: uint128, quotientNeg: bool, numNeg: bool): Division {
    var rem := MakeDurationFromU128(remainder, numNeg);
    if !quotientNeg || quotient == 0 then
      Division(quotient % TWO_63, rem)
    else
      Division(-((quotient - 1) % TWO_63) - 1, rem)
  }

  lemma ClampBelow(satq: bool, quotient: nat, isNeg: bool)
    ensures (if satq then ClampMagnitude(quotient, isNeg) else quotient) <= quotient
  {
  }

  /** Limits a quotient's magnitude to the int64 range. */
  function ClampMagnitude(quotient: nat, isNeg: bool): nat {
    if quotient > INT64_MAX then if isNeg then TWO_63 else INT64_MAX else quotient
  }

  lemma RemainderFits(a: nat, b: nat, quotient: nat)
    requires b > 0 && quotient <= a / b
    ensures 0 <= quotient * b <= a
  {
    NatDivision(a, b);
    ProductBound(quotient, b, a / b, b);
  }

  function IntegerDiv(satq: bool, num: Rep, den: Rep): Division
    requires Valid(num) && Valid(den)
  {
    var fast := IDivFastPath(num, den);
    if fast.Some? then fast.value
    else
      var numNeg := LessThan(num, ZERO);
      var quotientNeg := numNeg != LessThan(den, ZERO);
      if IsInfinite(num) || den == ZERO then
        Division(if quotientNeg then INT64_MIN else INT64_MAX, if numNeg then NEG_INFINITE else INFINITE)
      else if IsInfinite(den) then
        Division(0, num)
      else
        IntegerDivWide(satq, num, den)
  }

  // ----- Laws of division -----

  function ClampInt64(x: int): int64 {
    if x > INT64_MAX then INT64_MAX else if x < INT64_MIN then INT64_MIN else x
  }

  lemma AssembleIsExact(quotient: nat, remainder: uint128, quotientNeg: bool, numNeg: bool, exactRem: int)
    requires Signed(remainder, numNeg) == exactRem
    requires MIN_TICKS <= exactRem <= MAX_TICKS
    ensures var r := Assemble(quotient, remainder, quotientNeg, numNeg);
      && Finite(r.rem) && Rank(r.rem) == exactRem
      && (INT64_MIN <= Signed(quotient, quotientNeg) <= INT64_MAX ==> r.q == Signed(quotient, quotientNeg))
  {
  }

  /** A quotient that is not clamped keeps its sign and its low 63 bits. */
  lemma AssembleKeepsLowBits(quotient: nat, remainder: uint128, quotientNeg: bool, numNeg: bool) returns (k: int)
    ensures var r := Assemble(quotient, remainder, quotientNeg, numNeg);
      && Signed(quotient, quotientNeg) == r.q + TWO_63 * k
      && (quotient != 0 ==> (r.q < 0 <==> quotientNeg)) && (quotient == 0 ==> r.q == 0)
  {
    k := if !quotientNeg || quotient == 0 then quotient / TWO_63 else -((quotient - 1) / TWO_63);
  }

  /** Dividing magnitudes and putting the signs back is truncated division, clamped if asked. */
  lemma WideQuotientIsExact(satq: bool, x: int, y: int)
    requires y != 0
    ensures var neg := (x < 0) != (y < 0); var quotient := WideQuotient(satq, Abs(x), Abs(y), neg);
      && Signed(quotient, neg) == (if satq then ClampInt64(TruncDiv(x, y)) else TruncDiv(x, y))
      && Signed(Abs(x) - quotient * Abs(y), x < 0) == x - y * Signed(quotient, neg)
  {
    SignedMagnitudes(x, y);
    NatDivision(Abs(x), Abs(y));
    SignedRemainder(x, y, WideQuotient(satq, Abs(x), Abs(y), (x < 0) != (y < 0)));
  }

  /** The wide path divides exactly; clamping moves the excess into the remainder. */
  lemma WideDivisionIsExact(satq: bool, num: Rep, den: Rep)
    requires Finite(num) && Finite(den) && den != ZERO
    ensures var r := IntegerDivWide(satq, num, den);
      && Finite(r.rem)
      && (satq ==> r.q == ClampInt64(TruncDiv(Rank(num), Rank(den))))
      && (satq ==> Rank(r.rem) == Rank(num) - Rank(den) * r.q)
      && (!satq ==> Rank(r.rem) == TruncMod(Rank(num), Rank(den)))
      && (!satq && INT64_MIN <= TruncDiv(Rank(num), Rank(den)) <= INT64_MAX ==>
            r.q == TruncDiv(Rank(num), Rank(den)))
  {
    var x, y := Rank(num), Rank(den);
    LessThanIsTickOrder(num, ZERO);
    LessThanIsTickOrder(den, ZERO);
    WideQuotientIsExact(satq, x, y);
    var neg := (x < 0) != (y < 0);
    var quotient := WideQuotient(satq, Abs(x), Abs(y), neg);
    hide TruncDiv, WideQuotient, LessThan, MakeU128Ticks;
    AssembleIsExact(quotient, Abs(x) - quotient * Abs(y), neg, x < 0, x - y * Signed(quotient, neg));
    hide Assemble;
  }

  /** A quotient that must not saturate has the sign and the low 63 bits of the exact one. */
  lemma UnclampedQuotient(num: Rep, den: Rep) returns (k: int)
    requires Finite(num) && Finite(den) && den != ZERO
    ensures var q, exact := IntegerDivWide(false, num, den).q, TruncDiv(Rank(num), Rank(den));
      && exact == q + TWO_63 * k
      && (exact == 0 ==> q == 0) && (exact != 0 ==> (q < 0 <==> (Rank(num) < 0) != (Rank(den) < 0)))
  {
    var x, y := Rank(num), Rank(den);
    LessThanIsTickOrder(num, ZERO);
    LessThanIsTickOrder(den, ZERO);
    WideQuotientIsExact(false, x, y);
    var neg := (x < 0) != (y < 0);
    var quotient := WideQuotient(false, Abs(x), Abs(y), neg);
    hide TruncDiv, WideQuotient, LessThan, MakeU128Ticks;
    k := AssembleKeepsLowBits(quotient, Abs(x) - quotient * Abs(y), neg, x < 0);
    hide Assemble;
  }

  lemma SubsecondIsExact(num: Rep, denLo: uint32, perSecond: int64)
    requires Finite(num)
    requires denLo > 0 && perSecond > 0 && denLo * perSecond == TICKS_PER_SECOND
    requires perSecond <= 1_000_000_000
    ensures var r := DivideBySubsecond(num, denLo, perSecond);
      r.Some? ==> r.value.q == TruncDiv(Rank(num), denLo) && Rank(r.value.rem) == TruncMod(Rank(num), denLo)
    ensures DivideBySubsecond(num, denLo, perSecond).Some? ==> Finite(DivideBySubsecond(num, denLo, perSecond).value.rem)
  {
    var r := DivideBySubsecond(num, denLo, perSecond);
    if r.Some? {
      NatDivision(num.lo, denLo);
      var q, m := num.hi * perSecond, num.lo / denLo;
      assert denLo * q == num.hi * TICKS_PER_SECOND;
      assert denLo * (q + m) == denLo * q + denLo * m;
      TruncUnique(Rank(num), denLo, q + m, num.lo % denLo);
    }
  }

  lemma SecondsIsExact(num: Rep, denHi: int64)
    requires Finite(num)
    requires denHi > 0
    ensures var r := DivideBySeconds(num, denHi);
      && Finite(r.rem)
      && r.q == TruncDiv(Rank(num), denHi * TICKS_PER_SECOND)
      && Rank(r.rem) == TruncMod(Rank(num), denHi * TICKS_PER_SECOND)
  {
    var r := DivideBySeconds(num, denHi);
    var hi := if num.hi < 0 && num.lo != 0 then num.hi + 1 else num.hi;
    TruncFacts(hi, denHi);
    if num.hi >= 0 {
      NatDivision(num.hi, denHi);
    }
    assert hi == denHi * r.q + (hi - denHi * r.q);
    SecondsRemainder(num, denHi, hi, r.q, hi - denHi * r.q, r.rem);
  }

  lemma SecondsRemainder(num: Rep, denHi: int64, hi: int, q: int, s: int, rem: Rep)
    requires Finite(num) && denHi > 0
    requires hi == if num.hi < 0 && num.lo != 0 then num.hi + 1 else num.hi
    requires hi == denHi * q + s && Abs(s) < denHi && (num.hi < 0 ==> s <= 0) && (num.hi >= 0 ==> s >= 0)
    requires rem.hi == (if num.hi < 0 && num.lo != 0 then s - 1 else s) && rem.lo == num.lo
    ensures q == TruncDiv(Rank(num), denHi * TICKS_PER_SECOND)
    ensures Rank(rem) == TruncMod(Rank(num), denHi * TICKS_PER_SECOND)
  {
    var x, y := Rank(num), denHi * TICKS_PER_SECOND;
    assert y * q == (hi - s) * TICKS_PER_SECOND;
    TruncUnique(x, y, q, Rank(rem));
  }

  lemma FastPathIsExact(num: Rep, den: Rep)
    requires Valid(num) && Valid(den)
    requires IDivFastPath(num, den).Some?
    ensures Finite(num) && Finite(den) && den != ZERO
    ensures var r := IDivFastPath(num, den).value;
      && Finite(r.rem)
      && r.q == TruncDiv(Rank(num), Rank(den))
      && Rank(r.rem) == TruncMod(Rank(num), Rank(den))
  {
    if den.hi == 0 {
      if den.lo == 4 {
        SubsecondIsExact(num, den.lo, 1_000_000_000);
      } else if den.lo == 400 {
        SubsecondIsExact(num, den.lo, 10_000_000);
      } else if den.lo == 4_000 {
        SubsecondIsExact(num, den.lo, 1_000_000);
      } else {
        SubsecondIsExact(num, den.lo, 1_000);
      }
    } else {
      SecondsIsExact(num, den.hi);
    }
  }

  /** It answers for whole seconds, and for four subsecond units while the quotient cannot overflow. */
  lemma FastPathCovers(num: Rep, den: Rep)
    requires Valid(num) && Valid(den)
    ensures IDivFastPath(num, den).Some? <==>
      && Finite(num) && Finite(den) && Rank(den) > 0
      && (Rank(den) % 4_000_000_000 == 0
          || (Rank(den) in {4, 400, 4_000, 4_000_000}
              && 0 <= num.hi < (INT64_MAX - 4_000_000_000) / (4_000_000_000 / Rank(den))))
  {
    if Finite(den) {
      WholeSeconds(den);
    }
    hide DivideBySeconds;
  }

  lemma WholeSeconds(d: Rep)
    requires Finite(d)
    ensures Rank(d) % TICKS_PER_SECOND == 0 <==> d.lo == 0
    ensures Rank(d) > 0 <==> d.hi > 0 || (d.hi == 0 && d.lo > 0)
    ensures Rank(d) < TICKS_PER_SECOND <==> d.hi <= 0
    ensures d.hi == 0 ==> Rank(d) == d.lo
  {
  }

  /** Whenever the fast path answers, it answers what the 128-bit path would. */
  lemma FastPathAgrees(satq: bool, num: Rep, den: Rep)
    requires Valid(num) && Valid(den)
    requires IDivFastPath(num, den).Some?
    ensures Finite(num) && Finite(den) && den != ZERO
    ensures IDivFastPath(num, den).value == IntegerDivWide(satq, num, den)
  {
    FastPathIsExact(num, den);
    WideDivisionIsExact(satq, num, den);
    SaturateRank(IDivFastPath(num, den).value.rem);
    SaturateRank(IntegerDivWide(satq, num, den).rem);
  }

  lemma IntegerDivIsWide(satq: bool, num: Rep, den: Rep)
    requires Finite(num) && Finite(den) && den != ZERO
    ensures IntegerDiv(satq, num, den) == IntegerDivWide(satq, num, den)
  {
    if IDivFastPath(num, den).Some? {
      FastPathAgrees(satq, num, den);
    }
  }

  /**
   Saturating division: the identity num == den * q + rem holds in ticks without rounding, the
   remainder never has the wrong sign, and it is smaller than the denominator exactly when the
   true quotient fits int64.
   */
  lemma DivisionIdentity(num: Rep, den: Rep)
    requires Finite(num) && Finite(den) && den != ZERO
    ensures var r := IntegerDiv(true, num, den);
      && Finite(r.rem)
      && Rank(num) == Rank(den) * r.q + Rank(r.rem)
      && (Rank(r.rem) == 0 || (Rank(r.rem) < 0 <==> Rank(num) < 0))
      && (Abs(Rank(r.rem)) < Abs(Rank(den)) <==> INT64_MIN <= TruncDiv(Rank(num), Rank(den)) <= INT64_MAX)
      && r.q == ClampInt64(TruncDiv(Rank(num), Rank(den)))
  {
    var x, y := Rank(num), Rank(den);
    IntegerDivIsWide(true, num, den);
    WideDivisionIsExact(true, num, den);
    ClampedRemainder(x, y, IntegerDiv(true, num, den).q);
  }

  /**
   A zero denominator or an infinite numerator gives the extreme quotient of the right sign and an
   infinite remainder of the numerator's sign; an infinite denominator divides zero times.
   */
  lemma DivisionAtLimits(satq: bool, num: Rep, den: Rep)
    requires Valid(num) && Valid(den)
    ensures IsInfinite(num) || den == ZERO ==>
      IntegerDiv(satq, num, den) == Division(
        if (Rank(num) < 0) != (Rank(den) < 0) then INT64_MIN else INT64_MAX,
        if Rank(num) < 0 then NEG_INFINITE else INFINITE)
    ensures Finite(num) && IsInfinite(den) ==>
      IntegerDiv(satq, num, den).q == 0 && IntegerDiv(satq, num, den).rem == num
  {
    if IDivFastPath(num, den).Some? {
      FastPathIsExact(num, den);
    }
    LessThanIsTickOrder(num, ZERO);
    LessThanIsTickOrder(den, ZERO);
  }

  lemma ClampedRemainder(x: int, y: int, q: int)
    requires y != 0
    requires q == ClampInt64(TruncDiv(x, y))
    ensures x == y * q || (x - y * q < 0 <==> x < 0)
    ensures Abs(x - y * q) < Abs(y) <==> INT64_MIN <= TruncDiv(x, y) <= INT64_MAX
  {
    TruncFacts(x, y);
    var d := TruncDiv(x, y) - q;
    ExcessInRemainder(x, y, TruncDiv(x, y), q);
    if d != 0 {
      QuotientSign(x, y);
      SignedStep(x, y, d);
    }
  }

  lemma ExcessInRemainder(x: int, y: int, t: int, q: int)
    ensures x - y * q == y * (t - q) + (x - y * t)
  {
  }

  /** A nonzero excess of the quotient adds at least one denominator, on the numerator's side. */
  lemma SignedStep(x: int, y: int, d: int)
    requires y != 0 && d != 0
    requires (d < 0) == ((x < 0) != (y < 0))
    ensures Abs(y * d) >= Abs(y)
    ensures y * d < 0 <==> x < 0
  {
    MulAtLeast(Abs(y), Abs(d));
    SignedMagnitudes(y, d);
  }

  lemma QuotientSign(x: int, y: int)
    requires y != 0 && TruncDiv(x, y) != 0
    ensures (TruncDiv(x, y) < 0) == ((x < 0) != (y < 0))
  {
    SignedMagnitudes(x, y);
    NatDivision(Abs(x), Abs(y));
  }

  // ----- Remainder and rounding -----

  function Mod(d: Rep, e: Rep): Rep
    requires Valid(d) && Valid(e)
  {
    IntegerDiv(false, d, e).rem
  }

  /** The remainder operator is the exact truncated remainder, however large the quotient. */
  lemma ModIsExact(d: Rep, e: Rep)
    requires Finite(d) && Finite(e) && e != ZERO
    ensures Finite(Mod(d, e)) && Rank(Mod(d, e)) == TruncMod(Rank(d), Rank(e))
  {
    IntegerDivIsWide(false, d, e);
    WideDivisionIsExact(false, d, e);
  }

  /** An infinite dividend or a zero divisor leaves an infinity of the dividend's sign. */
  lemma ModAtLimits(d: Rep, e: Rep)
    requires Valid(d) && Valid(e)
    ensures IsInfinite(d) || e == ZERO ==> Mod(d, e) == if Rank(d) < 0 then NEG_INFINITE else INFINITE
    ensures Finite(d) && IsInfinite(e) ==> Mod(d, e) == d
  {
    DivisionAtLimits(false, d, e);
  }

  function Trunc(d: Rep, unit: Rep): Rep
    requires Valid(d) && Valid(unit)
  {
    Difference(d, Mod(d, unit))
  }

  function Floor(d: Rep, unit: Rep): Rep
    requires Valid(d) && Valid(unit)
  {
    var td := Trunc(d, unit);
    if AtMost(td, d) then td else Difference(td, AbsDuration(unit))
  }

  function Ceil(d: Rep, unit: Rep): Rep
    requires Valid(d) && Valid(unit)
  {
    var td := Trunc(d, unit);
    if AtMost(d, td) then td else Sum(td, AbsDuration(unit))
  }

  ghost predicate IsMultiple(m: int, y: int) {
    exists k :: m == k * y
  }

  /** m is the greatest multiple of y that is not above x. */
  ghost predicate IsFloorOf(m: int, x: int, y: int) {
    IsMultiple(m, y) && m <= x && forall z :: IsMultiple(z, y) && z <= x ==> z <= m
  }

  /** m is the least multiple of y that is not below x. */
  ghost predicate IsCeilOf(m: int, x: int, y: int) {
    IsMultiple(m, y) && m >= x && forall z :: IsMultiple(z, y) && z >= x ==> z >= m
  }

  lemma MultipleGap(k: int, m: int, y: nat)
    requires k > m
    ensures k * y >= m * y + y
  {
    MulAtLeast(y, k - m);
    assert k * y == m * y + (k - m) * y;
  }

  /** A multiple within one unit below x is the greatest one. */
  lemma FloorByGap(k: int, x: int, y: nat)
    requires k * y <= x < k * y + y
    ensures IsFloorOf(k * y, x, y)
  {
    forall z | IsMultiple(z, y) && z <= x
      ensures z <= k * y
    {
      var j :| z == j * y;
      if j > k {
        MultipleGap(j, k, y);
      }
    }
  }

  lemma CeilByGap(k: int, x: int, y: nat)
    requires k * y - y < x <= k * y
    ensures IsCeilOf(k * y, x, y)
  {
    forall z | IsMultiple(z, y) && z >= x
      ensures z >= k * y
    {
      var j :| z == j * y;
      if j < k {
        MultipleGap(k, j, y);
      }
    }
  }

  /** Truncation never saturates: it drops the exact remainder. */
  lemma TruncIsExact(d: Rep, unit: Rep)
    requires Finite(d) && Finite(unit) && unit != ZERO
    ensures Finite(Trunc(d, unit))
    ensures Rank(Trunc(d, unit)) == Rank(unit) * TruncDiv(Rank(d), Rank(unit))
    ensures Rank(Trunc(d, unit)) == Rank(d) - TruncMod(Rank(d), Rank(unit))
  {
    var x, y := Rank(d), Rank(unit);
    ModIsExact(d, unit);
    TruncFacts(x, y);
    NatDivision(Abs(x), Abs(y));
    RemainderIsPart(x, y);
  }

  lemma RemainderIsPart(x: int, y: int)
    requires y != 0
    ensures Abs(TruncMod(x, y)) <= Abs(x)
  {
    TruncFacts(x, y);
    NatDivision(Abs(x), Abs(y));
  }

  /** The one family of arguments on which floor misses: its unit has no finite absolute value. */
  predicate FloorOverflows(d: Rep, unit: Rep) {
    Rank(unit) == MIN_TICKS && MIN_TICKS < Rank(d) < 0
  }

  /** Truncation leaves a multiple of |y| less than |y| away. */
  lemma TruncatedMultiple(x: int, y: int) returns (k: int)
    requires y != 0
    ensures y * TruncDiv(x, y) == k * Abs(y)
    ensures Abs(x - k * Abs(y)) < Abs(y)
  {
    TruncFacts(x, y);
    var t := TruncDiv(x, y);
    hide TruncDiv;
    k := if y < 0 then -t else t;
    NegatedProduct(y, t);
  }

  lemma NegatedProduct(y: int, t: int)
    ensures -t * -y == y * t && t * y == y * t
  {
  }

  lemma NeighbourMultiples(k: int, y: int)
    ensures (k - 1) * y == k * y - y && (k + 1) * y == k * y + y
  {
  }

  lemma FloorTicks(x: int, y: int) returns (m: int)
    requires y != 0
    ensures m == var td := y * TruncDiv(x, y); if td <= x then td else td - Abs(y)
    ensures IsFloorOf(m, x, Abs(y))
  {
    hide TruncDiv, IsFloorOf;
    var k := TruncatedMultiple(x, y);
    NeighbourMultiples(k, Abs(y));
    var j := if k * Abs(y) <= x then k else k - 1;
    m := j * Abs(y);
    FloorByGap(j, x, Abs(y));
  }

  lemma CeilTicks(x: int, y: int) returns (m: int)
    requires y != 0
    ensures m == var td := y * TruncDiv(x, y); if td >= x then td else td + Abs(y)
    ensures IsCeilOf(m, x, Abs(y))
  {
    hide TruncDiv, IsCeilOf;
    var k := TruncatedMultiple(x, y);
    NeighbourMultiples(k, Abs(y));
    var j := if k * Abs(y) >= x then k else k + 1;
    m := j * Abs(y);
    CeilByGap(j, x, Abs(y));
  }

  lemma FloorUnique(m: int, n: int, x: int, y: int)
    requires IsFloorOf(m, x, y) && IsFloorOf(n, x, y)
    ensures m == n
  {
  }

  lemma CeilUnique(m: int, n: int, x: int, y: int)
    requires IsCeilOf(m, x, y) && IsCeilOf(n, x, y)
    ensures m == n
  {
  }

  /**
   floor is the greatest multiple of |unit| not above d, saturated when that multiple is not
   representable -- for every finite d and unit except exactly the family FloorOverflows.
   */
  lemma FloorIsGreatestMultiple(d: Rep, unit: Rep, m: int)
    requires Finite(d) && Finite(unit) && unit != ZERO
    requires IsFloorOf(m, Rank(d), Abs(Rank(unit)))
    ensures Floor(d, unit) == Saturate(m) <==> !FloorOverflows(d, unit)
  {
    var n := FloorTicks(Rank(d), Rank(unit));
    FloorUnique(m, n, Rank(d), Abs(Rank(unit)));
    TruncIsExact(d, unit);
    var td := Trunc(d, unit);
    SaturateRank(td);
    LessThanIsTickOrder(d, td);
    LessThanIsTickOrder(unit, ZERO);
    NegateIsExact(unit);
    if Rank(unit) == MIN_TICKS {
      TruncByLeast(Rank(d));
    }
  }

  /** One tick below zero has a greatest multiple of the least duration below it, but floor is infinite. */
  lemma FloorExample()
    ensures var d, unit := Rep(-1, 3_999_999_999), Rep(INT64_MIN, 0);
      && Rank(d) == -1 && FloorOverflows(d, unit)
      && IsFloorOf(MIN_TICKS, Rank(d), Abs(Rank(unit))) && Saturate(MIN_TICKS) == unit
      && Floor(d, unit) == NEG_INFINITE
  {
    hide Trunc, IsFloorOf, TruncDiv;
    TruncExample();
    FloorExampleTicks();
  }

  lemma TruncExample()
    ensures Trunc(Rep(-1, 3_999_999_999), Rep(INT64_MIN, 0)) == ZERO
  {
    hide Trunc, TruncDiv, TruncMod;
    var td := Trunc(Rep(-1, 3_999_999_999), Rep(INT64_MIN, 0));
    TruncIsExact(Rep(-1, 3_999_999_999), Rep(INT64_MIN, 0));
    TruncByLeast(-1);
    assert Finite(td) && Rank(td) == 0;
  }

  lemma FloorExampleTicks()
    ensures IsFloorOf(MIN_TICKS, -1, -MIN_TICKS)
  {
    assert -1 * -MIN_TICKS == MIN_TICKS;
    FloorByGap(-1, -1, -MIN_TICKS);
  }

  lemma TruncByLeast(x: int)
    requires MIN_TICKS <= x <= MAX_TICKS
    ensures MIN_TICKS * TruncDiv(x, MIN_TICKS) == if x == MIN_TICKS then MIN_TICKS else 0
  {
  }

  /** ceil is the least multiple of |unit| not below d, saturated, for every finite unit but zero. */
  lemma CeilIsLeastMultiple(d: Rep, unit: Rep, m: int)
    requires Finite(d) && Finite(unit) && unit != ZERO
    requires IsCeilOf(m, Rank(d), Abs(Rank(unit)))
    ensures Ceil(d, unit) == Saturate(m)
  {
    var n := CeilTicks(Rank(d), Rank(unit));
    CeilUnique(m, n, Rank(d), Abs(Rank(unit)));
    TruncIsExact(d, unit);
    var td := Trunc(d, unit);
    SaturateRank(td);
    LessThanIsTickOrder(td, d);
    LessThanIsTickOrder(unit, ZERO);
    NegateIsExact(unit);
    if Rank(unit) == MIN_TICKS {
      TruncByLeast(Rank(d));
    }
  }

  // ----- Wrap-around and its after-the-fact detection -----

  /**
   Rounding outside the finite units: an infinity stays what it is; with an infinite unit everything
   rounds to zero, or away from it to the infinity in the rounding's direction; and with a zero unit
   everything becomes the infinity opposite to it.
   */
  lemma RoundingAtLimits(d: Rep, unit: Rep)
    requires Valid(d) && Valid(unit)
    ensures IsInfinite(d) ==> Trunc(d, unit) == Floor(d, unit) == Ceil(d, unit) == d
    ensures Finite(d) && IsInfinite(unit) ==>
      && Trunc(d, unit) == ZERO
      && Floor(d, unit) == (if Rank(d) < 0 then NEG_INFINITE else ZERO)
      && Ceil(d, unit) == (if Rank(d) > 0 then INFINITE else ZERO)
    ensures Finite(d) && unit == ZERO ==>
      Trunc(d, unit) == Floor(d, unit) == Ceil(d, unit) == if Rank(d) < 0 then INFINITE else NEG_INFINITE
  {
    TruncAtLimits(d, unit);
    hide Mod, Trunc, LessThan, Saturate;
    var td := Trunc(d, unit);
    if IsInfinite(d) || !Finite(unit) || unit == ZERO {
      LessThanIsTickOrder(d, td);
      LessThanIsTickOrder(td, d);
      AbsOfInfinity(unit);
      hide AbsDuration;
    }
  }

  lemma TruncAtLimits(d: Rep, unit: Rep)
    requires Valid(d) && Valid(unit)
    ensures IsInfinite(d) ==> Trunc(d, unit) == d
    ensures Finite(d) && IsInfinite(unit) ==> Trunc(d, unit) == ZERO
    ensures Finite(d) && unit == ZERO ==> Trunc(d, unit) == if Rank(d) < 0 then INFINITE else NEG_INFINITE
  {
    ModAtLimits(d, unit);
    hide Mod;
  }

  lemma AbsOfInfinity(d: Rep)
    requires Valid(d)
    ensures IsInfinite(d) ==> AbsDuration(d) == INFINITE
  {
    LessThanIsTickOrder(d, ZERO);
  }

  /** One 64-bit addition of a step no larger than 2^63, read back as a signed number. */
  function Reduce(x: int): int {
    if x > INT64_MAX then x - TWO_64 else if x < INT64_MIN then x + TWO_64 else x
  }

  method WrappingAdd(a: int64, b: int64) returns (r: int64)
    ensures r == Reduce(a + b)
  {
    r := DecodeTwosComp(Wrap64(EncodeTwosComp(a) + EncodeTwosComp(b)));
  }

  method WrappingSub(a: int64, b: int64) returns (r: int64)
    ensures r == Reduce(a - b)
  {
    r := DecodeTwosComp(Wrap64(EncodeTwosComp(a) - EncodeTwosComp(b)));
  }

  lemma SumOverflow(d: Rep, e: Rep, hi: int64, lo: uint32)
    requires Finite(d) && Finite(e)
    requires var carry := if d.lo >= TICKS_PER_SECOND - e.lo then 1 else 0;
      && lo == d.lo + e.lo - carry * TICKS_PER_SECOND
      && hi == (if carry == 1 then Reduce(Reduce(d.hi + e.hi) + 1) else Reduce(d.hi + e.hi))
    ensures (if e.hi < 0 then hi > d.hi else hi < d.hi) <==> Saturate(Rank(d) + Rank(e)) != Rep(hi, lo)
    ensures (if e.hi < 0 then hi > d.hi else hi < d.hi) ==>
      Saturate(Rank(d) + Rank(e)) == if e.hi < 0 then NEG_INFINITE else INFINITE
  {
  }

  lemma DifferenceOverflow(d: Rep, e: Rep, hi: int64, lo: uint32)
    requires Finite(d) && Finite(e)
    requires var borrow := if d.lo < e.lo then 1 else 0;
      && lo == d.lo - e.lo + borrow * TICKS_PER_SECOND
      && hi == (if borrow == 1 then Reduce(Reduce(d.hi - e.hi) - 1) else Reduce(d.hi - e.hi))
    ensures (if e.hi < 0 then hi < d.hi else hi > d.hi) <==> Saturate(Rank(d) - Rank(e)) != Rep(hi, lo)
    ensures (if e.hi < 0 then hi < d.hi else hi > d.hi) ==>
      Saturate(Rank(d) - Rank(e)) == if e.hi >= 0 then NEG_INFINITE else INFINITE
  {
  }

  // ----- The mutable object -----

  /** A duration variable and its compound assignments, in wrapping 64- and 32-bit arithmetic. */
  class Duration {
    var repHi: int64
    var repLo: uint32

    function Value(): Rep
      reads this
    {
      Rep(repHi, repLo)
    }

    constructor (d: Rep)
      ensures Value() == d
    {
      repHi, repLo := d.hi, d.lo;
    }

    method Assign(d: Rep)
      modifies this
      ensures Value() == d
    {
      repHi, repLo := d.hi, d.lo;
    }

    method AddAssign(rhs: Rep)
      requires Valid(Value()) && Valid(rhs)
      modifies this
      ensures Valid(Value())
      ensures Value() == Sum(old(Value()), rhs)
      ensures Finite(old(Value())) && Finite(rhs) ==> Value() == Saturate(old(Rank(Value())) + Rank(rhs))
      ensures IsInfinite(old(Value())) ==> Rank(Value()) == old(Rank(Value()))
      ensures Finite(old(Value())) && IsInfinite(rhs) ==> Rank(Value()) == Rank(rhs)
    {
      if IsInfinite(Value()) {
        return;
      }
      if IsInfinite(rhs) {
        Assign(rhs);
        return;
      }
      AddFinite(rhs);
    }

    /** The wrapping arithmetic on two finite durations, and the test for overflow after it. */
    method AddFinite(rhs: Rep)
      requires Finite(Value()) && Finite(rhs)
      modifies this
      ensures Value() == Saturate(old(Rank(Value())) + Rank(rhs))
    {
      var origRepHi := repHi;
      repHi := WrappingAdd(repHi, rhs.hi);
      if repLo >= TICKS_PER_SECOND - rhs.lo {
        repHi := WrappingAdd(repHi, 1);
        repLo := Wrap32(repLo - TICKS_PER_SECOND);
      }
      repLo := Wrap32(repLo + rhs.lo);
      SumOverflow(old(Value()), rhs, repHi, repLo);
      if if rhs.hi < 0 then repHi > origRepHi else repHi < origRepHi {
        Assign(if rhs.hi < 0 then NEG_INFINITE else INFINITE);
      }
    }

    method SubAssign(rhs: Rep)
      requires Valid(Value()) && Valid(rhs)
      modifies this
      ensures Valid(Value())
      ensures Value() == Difference(old(Value()), rhs)
      ensures Finite(old(Value())) && Finite(rhs) ==> Value() == Saturate(old(Rank(Value())) - Rank(rhs))
      ensures IsInfinite(old(Value())) ==> Rank(Value()) == old(Rank(Value()))
      ensures Finite(old(Value())) && IsInfinite(rhs) ==>
        IsInfinite(Value()) && (Rank(Value()) < 0 <==> Rank(rhs) > 0)
    {
      if IsInfinite(Value()) {
        return;
      }
      if IsInfinite(rhs) {
        Assign(if rhs.hi >= 0 then NEG_INFINITE else INFINITE);
        return;
      }
      SubFinite(rhs);
    }

    /** The wrapping arithmetic on two finite durations, and the test for overflow after it. */
    method SubFinite(rhs: Rep)
      requires Finite(Value()) && Finite(rhs)
      modifies this
      ensures Value() == Saturate(old(Rank(Value())) - Rank(rhs))
    {
      var origRepHi := repHi;
      repHi := WrappingSub(repHi, rhs.hi);
      if repLo < rhs.lo {
        repHi := WrappingSub(repHi, 1);
        repLo := Wrap32(repLo + TICKS_PER_SECOND);
      }
      repLo := Wrap32(repLo - rhs.lo);
      DifferenceOverflow(old(Value()), rhs, repHi, repLo);
      if if rhs.hi < 0 then repHi < origRepHi else repHi > origRepHi {
        Assign(if rhs.hi >= 0 then NEG_INFINITE else INFINITE);
      }
    }

    method MulAssign(r: int64)
      requires Valid(Value())
      modifies this
      ensures Valid(Value())
      ensures Value() == Product(old(Value()), r)
      ensures Finite(old(Value())) ==> Value() == Saturate(old(Rank(Value())) * r)
      ensures IsInfinite(old(Value())) ==>
        IsInfinite(Value()) && (Rank(Value()) < 0 <==> (old(Rank(Value())) < 0) != (r < 0))
    {
      if IsInfinite(Value()) {
        var isNeg := (r < 0) != (repHi < 0);
        Assign(if isNeg then NEG_INFINITE else INFINITE);
        return;
      }
      ScaleFixedIsExact(SafeMultiply, Value(), r);
      Assign(ScaleFixed(SafeMultiply, Value(), r));
    }

    method DivAssign(r: int64)
      requires Valid(Value())
      modifies this
      ensures Valid(Value())
      ensures Value() == Quotient(old(Value()), r)
      ensures Finite(old(Value())) && r != 0 ==> Value() == Saturate(TruncDiv(old(Rank(Value())), r))
      ensures IsInfinite(old(Value())) || r == 0 ==>
        IsInfinite(Value()) && (Rank(Value()) < 0 <==> (old(Rank(Value())) < 0) != (r < 0))
    {
      if IsInfinite(Value()) || r == 0 {
        var isNeg := (r < 0) != (repHi < 0);
        Assign(if isNeg then NEG_INFINITE else INFINITE);
        return;
      }
      ScaleFixedIsExact(Divides, Value(), r);
      Assign(ScaleFixed(Divides, Value(), r));
    }

    method ModAssign(rhs: Rep)
      requires Valid(Value()) && Valid(rhs)
      modifies this
      ensures Value() == Mod(old(Value()), rhs)
      ensures old(Finite(Value())) && Finite(rhs) && rhs != ZERO ==>
        Finite(Value()) && Rank(Value()) == TruncMod(old(Rank(Value())), Rank(rhs))
      ensures old(IsInfinite(Value())) || rhs == ZERO ==>
        IsInfinite(Value()) && (Rank(Value()) < 0 <==> old(Rank(Value())) < 0)
      ensures old(Finite(Value())) && IsInfinite(rhs) ==> Value() == old(Value())
    {
      ModAtLimits(Value(), rhs);
      hide Mod;
      if Finite(Value()) && Finite(rhs) && rhs != ZERO {
        ModIsExact(Value(), rhs);
      }
      Assign(Mod(Value(), rhs));
    }
  }
}
