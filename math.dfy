/** The integer helpers of the money package (math.go), over Go's int64.
    Go's `/` and `%` truncate toward zero, while Dafny's are Euclidean, so the
    truncating pair is written out here as Divide and Modulus. Overflow is not
    modelled: each helper requires its exact result to fit in an int64. */
module MoneyMath {

  const MinInt64: int := -0x8000_0000_0000_0000
  const MaxInt64: int := 0x7FFF_FFFF_FFFF_FFFF

  /** Go's int64. */
  type Int64 = x: int | MinInt64 <= x <= MaxInt64

  predicate InInt64(x: int) {
    MinInt64 <= x <= MaxInt64
  }

  /** Mathematical absolute value (not Go's `absolute`, which fails on MinInt64). */
  function Abs(x: int): nat {
    if x < 0 then -x else x
  }

  function Sign(x: int): int {
    if x > 0 then 1 else if x < 0 then -1 else 0
  }

  /** 10^e; stands for `int64(math.Pow(10, float64(e)))`, which is exact while it fits an int64. */
  function Pow10(e: nat): (p: nat)
    ensures p >= 1
    ensures e >= 1 ==> p % 2 == 0 && p >= 10
  {
    if e == 0 then 1 else 10 * Pow10(e - 1)
  }

  const TwoTo64: int := 0x1_0000_0000_0000_0000

  /** Two's-complement wrap-around: the int64 congruent to x modulo 2^64,
      which is x itself whenever x fits. */
  function Wrap(x: int): (r: Int64)
    ensures (x - r) % TwoTo64 == 0
    ensures InInt64(x) ==> r == x
  {
    WrapFacts(x);
    (x - MinInt64) % TwoTo64 + MinInt64
  }

  lemma WrapFacts(x: int)
    ensures var r := (x - MinInt64) % TwoTo64 + MinInt64;
            && InInt64(r) && (x - r) % TwoTo64 == 0
            && (InInt64(x) ==> r == x)
  {
    var m, q := (x - MinInt64) % TwoTo64, (x - MinInt64) / TwoTo64;
    assert x - (m + MinInt64) == q * TwoTo64;
    MulDivCancel(q, TwoTo64);
    if InInt64(x) {
      DivUnique(x - MinInt64, TwoTo64, 0, x - MinInt64);
    }
  }

  // ---------------------------------------------------------------------
  // add, subtract, multiply

  function Add(a: Int64, b: Int64): (r: Int64)
    requires InInt64(a + b)
    ensures r - b == a
  {
    a + b
  }

  function Subtract(a: Int64, b: Int64): (r: Int64)
    requires InInt64(a - b)
    ensures r + b == a
  {
    a - b
  }

  /** The exact product; Go would wrap around where this requires a fit.
      Dividing by a non-zero multiplier gives the multiplicand back. */
  function Multiply(a: Int64, m: Int64): (r: Int64)
    requires InInt64(a * m)
    ensures r == a * m
    ensures m != 0 ==> r / m == a
  {
    if m != 0 then MulDivExact(a, m); a * m else a * m
  }

  /** add and subtract undo each other whenever neither overflows. */
  lemma AddSubtractInverse(a: Int64, b: Int64)
    requires InInt64(a + b)
    ensures Subtract(Add(a, b), b) == a
    ensures InInt64(a - b) ==> Add(Subtract(a, b), b) == a
  {
  }

  // ---------------------------------------------------------------------
  // divide, modulus: Go's truncated division

  /** Go's `a / d`: the quotient of the magnitudes, truncated toward zero,
      negative exactly when the operands' signs differ. The one quotient
      that does not fit, MinInt64 / -1, wraps around to MinInt64. */
  function Divide(a: Int64, d: Int64): (q: Int64)
    requires d != 0
    ensures a == MinInt64 && d == -1 ==> q == MinInt64
    ensures !(a == MinInt64 && d == -1) ==> Abs(q) == Abs(a) / Abs(d)
    ensures !(a == MinInt64 && d == -1) ==> q == 0 || (q > 0 <==> (a > 0) == (d > 0))
  {
    if a == MinInt64 && d == -1 then MinInt64
    else
      var u := Abs(a) / Abs(d);
      QuotientFacts(a, d);
      if (a < 0) == (d < 0) then u else -u
  }

  /** Go's `a % d`: what truncated division leaves over. It is smaller than the
      divisor in magnitude and is zero or has the dividend's sign. */
  function Modulus(a: Int64, d: Int64): (r: Int64)
    requires d != 0
    ensures !(a == MinInt64 && d == -1) ==> a == Divide(a, d) * d + r
    ensures Abs(r) == Abs(a) % Abs(d)
    ensures r == 0 || (r > 0 <==> a > 0)
  {
    var u := Abs(a) % Abs(d);
    TruncatedIdentity(a, d);
    if a < 0 then -u else u
  }

  /** Everything Divide promises, about the expression its body computes. */
  lemma QuotientFacts(a: Int64, d: Int64)
    requires d != 0
    requires !(a == MinInt64 && d == -1)
    ensures var u := Abs(a) / Abs(d);
            var q := if (a < 0) == (d < 0) then u else -u;
            && InInt64(q) && Abs(q) == u
            && (q == 0 || (q > 0 <==> (a > 0) == (d > 0)))
  {
    QuotientFits(a, d);
    SmallQuotient(Abs(a), Abs(d));
    SignedQuotient(a, d, Abs(a) / Abs(d));
  }

  lemma SmallQuotient(x: nat, y: nat)
    requires y > 0
    ensures x / y >= 0 && (x / y > 0 ==> x > 0)
  {
    DivUnique(0, y, 0, 0);
    DivMonotone(0, x, y);
    if x < y {
      DivUnique(x, y, 0, x);
    }
  }

  /** Giving a magnitude u the sign Go's division gives its quotient. */
  lemma SignedQuotient(a: int, d: int, u: int)
    requires d != 0 && u >= 0 && (u > 0 ==> a != 0)
    requires InInt64(u) || ((a < 0) != (d < 0) && u == -MinInt64)
    ensures var q := if (a < 0) == (d < 0) then u else -u;
            && InInt64(q) && Abs(q) == u
            && (q == 0 || (q > 0 <==> (a > 0) == (d > 0)))
  {
  }

  lemma QuotientFits(a: Int64, d: Int64)
    requires d != 0
    requires !(a == MinInt64 && d == -1)
    ensures var u := Abs(a) / Abs(d);
            InInt64(u) || ((a < 0) != (d < 0) && u == -MinInt64)
  {
    var x, y := Abs(a), Abs(d);
    var u := x / y;
    if y >= 2 {
      assert u * y <= x;
      MulMonotone(u, 2, y);
    } else {
      assert u == x;
    }
  }

  /** On non-negative operands Go's and Dafny's division agree. */
  lemma DivideNonNegative(x: Int64, p: Int64)
    requires x >= 0 && p > 0
    ensures Divide(x, p) == x / p && Modulus(x, p) == x % p
  {
  }

  lemma TruncatedIdentity(a: int, d: int)
    requires d != 0
    ensures var u := Abs(a) / Abs(d);
            var q := if (a < 0) == (d < 0) then u else -u;
            a == q * d + (if a < 0 then -(Abs(a) % Abs(d)) else Abs(a) % Abs(d))
  {
    var x, y := Abs(a), Abs(d);
    var u, m := x / y, x % y;
    assert x == u * y + m;
    if a < 0 && d < 0 {
      assert u * d == -(u * y);
    } else if a < 0 {
      assert (-u) * d == -(u * y);
    } else if d < 0 {
      assert (-u) * d == u * y;
    }
  }

  // ---------------------------------------------------------------------
  // allocate

  /** Go's `a * int64(r) / int64(s)`: one party's truncated proportional share.
      It misses the exact share a*r/s by less than one unit; for a ratio within
      the total it is zero or has the sign of `a` and is no larger than `a`. */
  function Allocate(a: Int64, r: Int64, s: Int64): (q: Int64)
    requires s != 0
    requires InInt64(a * r)
    ensures a * r == MinInt64 && s == -1 ==> q == MinInt64
    ensures !(a * r == MinInt64 && s == -1) ==> Abs(a * r - q * s) < Abs(s)
    ensures a * r >= 0 ==> a * r - q * s >= 0
    ensures a * r <= 0 ==> a * r - q * s <= 0
    ensures s > 0 && 0 <= r ==> (q == 0 || (q > 0 <==> a > 0))
    ensures s > 0 && 0 <= r <= s ==> Abs(q) <= Abs(a)
  {
    var q := Divide(Multiply(a, r), s);
    if a * r == MinInt64 && s == -1 then q
    else
      assert Modulus(a * r, s) == a * r - q * s;
      AllocateFacts(a, r, s, q);
      q
  }

  lemma AllocateFacts(a: int, r: int, s: int, q: int)
    requires s != 0
    requires Abs(q) == Abs(a * r) / Abs(s)
    requires q == 0 || (q > 0 <==> (a * r > 0) == (s > 0))
    ensures s > 0 && 0 <= r ==> (q == 0 || (q > 0 <==> a > 0))
    ensures s > 0 && 0 <= r <= s ==> Abs(q) <= Abs(a)
  {
    if s > 0 && 0 <= r {
      var x := Abs(a);
      assert Abs(a * r) == x * r by {
        if a < 0 {
          assert a * r == -(x * r);
        }
      }
      if r <= s {
        MulMonotone(x, r, s);
        DivMonotone(x * r, x * s, s);
        MulDivCancel(x, s);
      }
      if q != 0 {
        if a > 0 {
          assert a * r > 0;
        } else if a < 0 {
          assert a * r < 0;
        }
      }
    }
  }

  // ---------------------------------------------------------------------
  // absolute, negative

  /** Go's `absolute`; it has no int64 answer (it overflows) for MinInt64. */
  function Absolute(a: Int64): (r: Int64)
    requires a != MinInt64
    ensures r >= 0 && (r == a || r + a == 0)
  {
    if a < 0 then -a else a
  }

  /** Go's `negative`: negates positives, keeps zero and negatives. */
  function Negative(a: Int64): (r: Int64)
    ensures r <= 0 && (r == a || r + a == 0)
  {
    if a > 0 then -a else a
  }

  lemma NegativeIsMinusAbsolute(a: Int64)
    requires a != MinInt64
    ensures Negative(a) == -Absolute(a)
    ensures Negative(Negative(a)) == Negative(a)
    ensures Absolute(Negative(a)) == Absolute(a)
  {
  }

  // ---------------------------------------------------------------------
  // round

  /** When rounding stays within int64: 10^e fits, and a magnitude rounded
      up to the next multiple of 10^e is still at most MaxInt64. */
  predicate RoundFits(a: int, e: nat) {
    && Pow10(e) <= MaxInt64
    && InInt64(a)
    && (Abs(a) % Pow10(e) > Pow10(e) / 2 ==> Abs(a) - Abs(a) % Pow10(e) + Pow10(e) <= MaxInt64)
  }

  /** `round(a, e)` as intended: the nearest multiple of 10^e, ties toward
      zero (the magnitude goes up only when what is left over is strictly
      more than half of 10^e), with the sign of `a` put back. It works on the
      exact magnitude, so MinInt64 keeps its sign; RoundAsWritten is the
      source's int64 computation, which agrees everywhere else. */
  function Round(a: Int64, e: nat): (r: Int64)
    requires RoundFits(a, e)
    ensures a == 0 ==> r == 0
    ensures r % Pow10(e) == 0
    ensures r == 0 || (r > 0 <==> a > 0)
    ensures Abs(r - a) <= Pow10(e) / 2
    ensures Abs(r) > Abs(a) <==> Abs(a) % Pow10(e) > Pow10(e) / 2
    ensures a != MinInt64 ==> r != MinInt64
  {
    if a == 0 then 0
    else
      var p := Pow10(e);
      var x := Abs(a);
      var up := if x % p > p / 2 then x + p else x;
      var mag := (up / p) * p;
      RoundResult(a, p, up, mag);
      if a < 0 then -mag else mag
  }

  /** math.go's `round` step by step on int64, wrap-around included:
      `absolute` and the negations wrap, `%` and `/` truncate. */
  function RoundAsWritten(a: Int64, e: nat): (r: Int64)
    requires Pow10(e) <= MaxInt64
    ensures a == 0 ==> r == 0
  {
    if a == 0 then 0
    else
      var exp: Int64 := Pow10(e);
      var mag := TruncateAsWritten(RaiseAsWritten(AbsoluteAsWritten(a), exp), exp);
      if a < 0 then NegateAsWritten(mag) else mag
  }

  /** Go's `absolute` on int64: MinInt64 wraps to itself. */
  function AbsoluteAsWritten(a: Int64): (r: Int64)
    ensures a != MinInt64 ==> r == Abs(a)
    ensures a == MinInt64 ==> r == MinInt64
  {
    Wrap(if a < 0 then -(a as int) else a)
  }

  /** Go's unary minus on int64: MinInt64 wraps to itself. */
  function NegateAsWritten(m: Int64): (r: Int64)
    ensures m != MinInt64 ==> r == -m
    ensures m == MinInt64 ==> r == MinInt64
  {
    Wrap(-(m as int))
  }

  /** Go's `if m > exp/2 { absam += exp }` with m the truncated remainder:
      on a magnitude whose raised value fits, it is the Euclidean rounding up. */
  function RaiseAsWritten(x: Int64, p: Int64): (r: Int64)
    requires p >= 1
    ensures x >= 0 && (x % p > p / 2 ==> x + p <= MaxInt64) ==>
              r == if x % p > p / 2 then x + p else x
  {
    var r := if Modulus(x, p) > Divide(p, 2) then Wrap(x as int + p) else x;
    if x >= 0 then
      DivideNonNegative(x, p);
      DivideNonNegative(p, 2);
      r
    else r
  }

  /** Go's `(absam / exp) * exp`: on a non-negative value it is the largest
      multiple of p not above it, and never wraps. */
  function TruncateAsWritten(up: Int64, p: Int64): (r: Int64)
    requires p >= 1
    ensures up >= 0 ==> r == (up / p) * p && 0 <= r <= up
  {
    var r := Wrap(Divide(up, p) as int * p);
    if up >= 0 then
      DivideNonNegative(up, p);
      SmallQuotient(up, p);
      MulAtLeast(up / p, p);
      assert 0 <= (up / p) * p <= up;
      r
    else r
  }

  /** Apart from MinInt64 and from magnitudes that Go's `absam += exp` would
      carry past MaxInt64, the source's computation is the intended rounding. */
  lemma RoundAgrees(a: Int64, e: nat)
    requires RoundFits(a, e) && a != MinInt64
    requires Abs(a) % Pow10(e) > Pow10(e) / 2 ==> Abs(a) + Pow10(e) <= MaxInt64
    ensures RoundAsWritten(a, e) == Round(a, e)
  {
    if a != 0 {
      RoundAsWrittenSteps(a, e);
      RoundValue(a, e);
    }
  }

  /** Round's value, in the terms RoundAsWrittenSteps reaches. */
  lemma RoundValue(a: Int64, e: nat)
    requires RoundFits(a, e) && a != 0
    ensures var p, x := Pow10(e), Abs(a);
            var up := if x % p > p / 2 then x + p else x;
            var mag := (up / p) * p;
            Round(a, e) == if a < 0 then -mag else mag
  {
  }

  /** What the int64 steps of RoundAsWritten come to when nothing wraps. */
  lemma RoundAsWrittenSteps(a: Int64, e: nat)
    requires a != 0 && a != MinInt64 && Pow10(e) <= MaxInt64
    requires Abs(a) % Pow10(e) > Pow10(e) / 2 ==> Abs(a) + Pow10(e) <= MaxInt64
    ensures var p, x := Pow10(e), Abs(a);
            var up := if x % p > p / 2 then x + p else x;
            var mag := (up / p) * p;
            RoundAsWritten(a, e) == if a < 0 then -mag else mag
  {
    var p, x := Pow10(e), Abs(a);
    var up := RaiseAsWritten(AbsoluteAsWritten(a), p);
    assert up == if x % p > p / 2 then x + p else x;
  }

  /** The source flips the sign of MinInt64: `absolute` wraps it to itself,
      its truncated remainder -8 is not above 50, and negating the negative
      magnitude gives a positive result. */
  lemma RoundMinInt64AsWritten()
    ensures RoundAsWritten(MinInt64, 2) == 9223372036854775800
  {
    assert Pow10(2) == 100;
    assert Modulus(MinInt64, 100) == -8;
    assert RaiseAsWritten(MinInt64, 100) == MinInt64;
    assert Divide(MinInt64, 100) == -92233720368547758;
    assert TruncateAsWritten(MinInt64, 100) == -9223372036854775800;
  }

  /** The intended rounding keeps MinInt64 negative. */
  lemma RoundMinInt64Corrected()
    ensures RoundFits(MinInt64, 2)
    ensures Round(MinInt64, 2) == -9223372036854775800
  {
  }

  /** Near MaxInt64 the source wraps: 9223372036854775799 leaves 99 over
      100, adding 100 to it passes MaxInt64, and the wrapped sum comes out
      as a large negative multiple of 100. */
  lemma RoundNearMaxAsWritten()
    ensures RoundAsWritten(9223372036854775799, 2) == -9223372036854775700
    ensures RoundAsWritten(-9223372036854775799, 2) == 9223372036854775700
  {
    var x: Int64 := 9223372036854775799;
    assert Pow10(2) == 100;
    assert AbsoluteAsWritten(x) == x && AbsoluteAsWritten(-x) == x;
    assert Modulus(x, 100) == 99;
    assert Wrap(9223372036854775899) == -9223372036854775717;
    assert RaiseAsWritten(x, 100) == -9223372036854775717;
    assert Divide(-9223372036854775717, 100) == -92233720368547757;
    assert TruncateAsWritten(-9223372036854775717, 100) == -9223372036854775700;
  }

  /** The intended rounding of the same amounts fits int64 and goes up. */
  lemma RoundNearMaxCorrected()
    ensures RoundFits(9223372036854775799, 2)
    ensures Round(9223372036854775799, 2) == 9223372036854775800
    ensures RoundFits(-9223372036854775799, 2)
    ensures Round(-9223372036854775799, 2) == -9223372036854775800
  {
  }

  /** The properties of Round's result, from those of its magnitude. */
  lemma RoundResult(a: int, p: nat, up: nat, mag: int)
    requires a != 0 && p >= 1 && (p == 1 || p % 2 == 0)
    requires up == if Abs(a) % p > p / 2 then Abs(a) + p else Abs(a)
    requires mag == (up / p) * p
    ensures var r := if a < 0 then -mag else mag;
            && r % p == 0
            && (r == 0 || (r > 0 <==> a > 0))
            && Abs(r - a) <= p / 2
            && (Abs(r) > Abs(a) <==> Abs(a) % p > p / 2)
            && Abs(r) <= up
            && (Abs(a) % p > p / 2 ==> Abs(r) == Abs(a) - Abs(a) % p + p)
  {
    RoundMagnitude(Abs(a), p, up);
    SmallQuotient(up, p);
    MulAtLeast(up / p, p);
    RoundSigned(a, p, p / 2, Abs(a) % p, mag);
    if a < 0 {
      NegatedMultiple(mag, p);
    }
  }

  /** Putting the sign back on a rounded magnitude, in linear terms:
      `h` is half the step `p`, `m` what the magnitude left over, and `mag`
      the multiple it became. */
  lemma RoundSigned(a: int, p: int, h: int, m: int, mag: int)
    requires a != 0 && p >= 1 && (p == 2 * h || (p == 1 && h == 0)) && 0 <= m < p && mag >= 0
    requires m > h ==> mag == Abs(a) - m + p
    requires m <= h ==> mag == Abs(a) - m
    ensures var r := if a < 0 then -mag else mag;
            && (r == 0 || (r > 0 <==> a > 0))
            && Abs(r - a) <= h
            && (Abs(r) > Abs(a) <==> m > h)
            && Abs(r) <= Abs(a) + (if m > h then p else 0)
  {
  }

  /** What the magnitude step of Round computes, in Euclidean terms. */
  lemma RoundMagnitude(x: nat, p: nat, up: nat)
    requires p >= 1 && (p == 1 || p % 2 == 0)
    requires up == if x % p > p / 2 then x + p else x
    ensures (up / p) * p % p == 0
    ensures x % p > p / 2 ==> (up / p) * p == x - x % p + p
    ensures x % p <= p / 2 ==> (up / p) * p == x - x % p
  {
    var k, m := x / p, x % p;
    if m > p / 2 {
      DivUnique(up, p, k + 1, m);
    }
    MulDivCancel(up / p, p);
  }

  lemma NegatedMultiple(x: int, p: int)
    requires p > 0 && x % p == 0
    ensures (-x) % p == 0
  {
    var k := x / p;
    assert -x == (-k) * p;
    MulDivCancel(-k, p);
  }

  /** A value that is already a multiple of 10^e is returned unchanged. */
  lemma RoundOfMultiple(a: Int64, e: nat)
    requires RoundFits(a, e)
    requires a % Pow10(e) == 0
    ensures Round(a, e) == a
  {
    var p := Pow10(e);
    var r := Round(a, e);
    if a != 0 {
      assert Abs(a) % p == 0 by {
        if a < 0 {
          NegatedMultiple(a, p);
        }
      }
      MultiplesApart(a, r, p);
    }
  }

  /** Two multiples of p at most p/2 apart are equal. */
  lemma MultiplesApart(a: int, r: int, p: int)
    requires p >= 1
    requires a % p == 0 && r % p == 0
    requires Abs(r - a) <= p / 2
    ensures r == a
  {
    var ka, kr := a / p, r / p;
    assert r - a == (kr - ka) * p;
    SmallMultiple(kr - ka, p);
  }

  /** Rounding twice is rounding once. */
  lemma RoundIdempotent(a: Int64, e: nat)
    requires RoundFits(a, e)
    ensures RoundFits(Round(a, e), e)
    ensures Round(Round(a, e), e) == Round(a, e)
  {
    var r := Round(a, e);
    var p := Pow10(e);
    assert Abs(r) % p == 0 by {
      if r < 0 {
        NegatedMultiple(r, p);
      }
    }
    RoundOfMultiple(r, e);
  }

  // ---------------------------------------------------------------------
  // Arithmetic facts the solver does not find on its own

  lemma MulAtLeast(u: nat, y: int)
    requires y >= 1
    ensures u <= u * y
  {
    assert u * y == u * (y - 1) + u;
  }

  lemma MulMonotone(x: nat, r: int, s: int)
    requires r <= s
    ensures x * r <= x * s
  {
    assert x * s - x * r == x * (s - r);
  }

  /** The only multiple of y strictly between -y and y is zero. */
  lemma SmallMultiple(k: int, y: int)
    requires y > 0 && -y < k * y < y
    ensures k == 0
  {
    if k > 0 {
      MulAtLeast(y, k);
    }
  }

  lemma DivUnique(x: int, y: int, q: int, m: int)
    requires y > 0 && x == q * y + m && 0 <= m < y
    ensures x / y == q && x % y == m
  {
    var q', m' := x / y, x % y;
    assert (q' - q) * y == m - m';
    SmallMultiple(q' - q, y);
  }

  lemma MulDivCancel(x: int, s: int)
    requires s > 0
    ensures (x * s) / s == x && (x * s) % s == 0
  {
    DivUnique(x * s, s, x, 0);
  }

  lemma DivMonotone(x1: int, x2: int, s: int)
    requires s > 0 && x1 <= x2
    ensures x1 / s <= x2 / s
  {
    var q1, q2 := x1 / s, x2 / s;
    if q1 > q2 {
      MulAtLeast(s, q1 - q2);
    }
  }

  /** Euclidean division undoes a multiplication by any non-zero divisor. */
  lemma MulDivExact(x: int, y: int)
    requires y != 0
    ensures (x * y) / y == x
  {
    if y > 0 {
      MulDivCancel(x, y);
    } else {
      var q, m := (x * y) / y, (x * y) % y;
      var k := x - q;
      assert k * y == m;
      assert k * (-y) == -m;
      SmallMultiple(k, -y);
    }
  }
}
