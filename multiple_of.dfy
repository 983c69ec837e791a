/**
 * MultipleOfValidator: a bean-validation constraint that accepts a numeric
 * string only when its exact decimal value is an integer multiple of the
 * annotation's decimal.
 */
module MultipleOfValidation {
  import opened Wrappers

  function Pow10(n: nat): (r: nat)
    ensures r > 0
  {
    if n == 0 then 1 else 10 * Pow10(n - 1)
  }

  lemma {:induction false} Pow10Add(a: nat, b: nat)
    ensures Pow10(a + b) == Pow10(a) * Pow10(b)
  {
    if a > 0 {
      Pow10Add(a - 1, b);
      assert Pow10(a + b) == 10 * Pow10(a - 1 + b);
    }
  }

  /** A java.math.BigDecimal: an unscaled integer and a scale, standing for unscaled × 10^-scale. */
  datatype Decimal = Decimal(unscaled: int, scale: int)

  /** BigDecimal.ZERO. */
  const Zero := Decimal(0, 0)

  /** The exact number a decimal stands for. */
  function Value(d: Decimal): real
  {
    if d.scale >= 0 then d.unscaled as real / Pow10(d.scale) as real
    else (d.unscaled * Pow10(-d.scale)) as real
  }

  /** The same number written with `extra` more digits after the point (1 and 1.00, say). */
  function Rescale(d: Decimal, extra: nat): Decimal
  {
    Decimal(d.unscaled * Pow10(extra), d.scale + extra)
  }

  /** `k` copies of `x`. */
  function Times(k: int, x: real): real
  {
    k as real * x
  }

  /** `v` is an exact integer multiple of `d`. */
  ghost predicate MultipleOf(v: Decimal, d: Decimal)
  {
    exists k: int :: Value(v) == Times(k, Value(d))
  }

  /** The @MultipleOf annotation: its `value`, already read as a decimal. */
  datatype MultipleOfAnnotation = MultipleOfAnnotation(value: Decimal)

  /** The string to validate: null, empty, or the decimal it spells. */
  datatype Source = NullSource | EmptySource | Numeral(value: Decimal)

  /** BigDecimal.remainder throws ArithmeticException for a zero divisor. */
  predicate DividesByZero(divisor: Option<Decimal>, source: Source)
  {
    divisor.Some? && divisor.value.unscaled == 0 && source.Numeral?
  }

  /**
   * What isValid promises: no divisor rejects everything, before the source is
   * looked at; with one, a null or empty source is accepted and a number is
   * accepted exactly when it is an integer multiple of the divisor.
   */
  ghost predicate Accepts(divisor: Option<Decimal>, source: Source)
  {
    match divisor
    case None => false
    case Some(d) =>
      match source
      case Numeral(v) => MultipleOf(v, d)
      case _ => true
  }

  // ---------------------------------------------------------------------------
  // Aligning two decimals on a common scale
  // ---------------------------------------------------------------------------

  /** The unscaled value of `d` written at scale `s`. */
  function Aligned(d: Decimal, s: int): int
    requires s >= d.scale
  {
    d.unscaled * Pow10(s - d.scale)
  }

  /** A helper for the real-number steps below: converting a product to a real converts each factor. */
  lemma CastMul(a: int, b: int)
    ensures (a * b) as real == a as real * b as real
  {
  }

  /** u·r / (r·q) is u / q. */
  lemma ScaledFraction(u: int, r: int, q: int, p: int)
    requires r > 0 && q > 0 && p == r * q
    ensures (u * r) as real / p as real == u as real / q as real
  {
    CastMul(u, r);
    CastMul(r, q);
    var ur, rr, qr := u as real, r as real, q as real;
    assert (ur * rr) / (rr * qr) == ur / qr;
  }

  /** u·(n·p) / p is u·n. */
  lemma WholeFraction(u: int, n: int, p: int, m: int)
    requires p > 0 && m == n * p
    ensures (u * m) as real / p as real == (u * n) as real
  {
    assert u * m == (u * n) * p;
    CastMul(u * n, p);
    var x, pr := (u * n) as real, p as real;
    assert (x * pr) / pr == x;
  }

  /** Two fractions over the same positive denominator: one is k times the other exactly when the numerators are. */
  lemma SameDenominator(x: real, y: real, a: int, b: int, p: real, k: int)
    requires p > 0.0 && x == a as real / p && y == b as real / p
    ensures x == Times(k, y) <==> a == k * b
  {
    CastMul(k, b);
    var ar, br, kr := a as real, b as real, k as real;
    assert kr * (br / p) == (kr * br) / p;
  }

  /** A helper that keeps the nonlinear step of RescaleValue small. */
  lemma MulAssoc(a: int, b: int, c: int)
    ensures (a * b) * c == a * (b * c)
  {
  }

  /** Written at a scale `s` of at least its own, a decimal is its aligned integer over 10^s. */
  lemma AlignedValue(d: Decimal, s: nat)
    requires s >= d.scale
    ensures Value(d) == Aligned(d, s) as real / Pow10(s) as real
  {
    if d.scale >= 0 {
      Pow10Add(s - d.scale, d.scale);
      ScaledFraction(d.unscaled, Pow10(s - d.scale), Pow10(d.scale), Pow10(s));
    } else {
      Pow10Add(-d.scale, s);
      WholeFraction(d.unscaled, Pow10(-d.scale), Pow10(s), Pow10(s - d.scale));
    }
  }

  /** A nonzero multiple of `b` is at least as far from zero as `b`. */
  lemma {:induction false} MulAtLeast(m: nat, b: nat)
    requires m >= 1
    ensures m * b >= b
  {
    if m > 1 {
      MulAtLeast(m - 1, b);
      assert m * b == (m - 1) * b + b;
    }
  }

  lemma NonzeroMultiple(m: int, b: int)
    ensures m != 0 && b > 0 ==> m * b >= b || m * b <= -b
    ensures m != 0 && b < 0 ==> m * b >= -b || m * b <= b
  {
    var am: nat := if m >= 0 then m else -m;
    var ab: nat := if b >= 0 then b else -b;
    if am >= 1 {
      MulAtLeast(am, ab);
    }
    assert am * ab == m * b || am * ab == -(m * b);
  }

  /** Dafny's remainder of an exact multiple is zero. */
  lemma RemainderOfMultiple(k: int, b: int)
    requires b != 0
    ensures (k * b) % b == 0
  {
    var a := k * b;
    var q, r := a / b, a % b;
    assert a == q * b + r;
    assert (k - q) * b == r;
    NonzeroMultiple(k - q, b);
  }

  /** An integer divides another exactly when the remainder is zero. */
  lemma DividesIff(a: int, b: int)
    requires b != 0
    ensures a % b == 0 <==> exists k: int :: a == k * b
  {
    if a % b == 0 {
      assert a == (a / b) * b;
    } else if exists k: int :: a == k * b {
      var k :| a == k * b;
      RemainderOfMultiple(k, b);
    }
  }

  /** At a common scale, being a multiple is divisibility of the aligned integers. */
  lemma MultipleOfAligned(v: Decimal, d: Decimal, s: nat)
    requires s >= v.scale && s >= d.scale
    ensures MultipleOf(v, d) <==> exists k: int :: Aligned(v, s) == k * Aligned(d, s)
  {
    var av, ad, p := Aligned(v, s), Aligned(d, s), Pow10(s) as real;
    AlignedValue(v, s);
    AlignedValue(d, s);
    if MultipleOf(v, d) {
      var k: int :| Value(v) == Times(k, Value(d));
      SameDenominator(Value(v), Value(d), av, ad, p, k);
      assert av == k * ad;
    }
    if exists k: int :: av == k * ad {
      var k: int :| av == k * ad;
      SameDenominator(Value(v), Value(d), av, ad, p, k);
      assert Value(v) == Times(k, Value(d));
    }
  }

  // ---------------------------------------------------------------------------
  // The validator
  // ---------------------------------------------------------------------------

  class MultipleOfValidator {
    /** The divisor; BigDecimal.ZERO until initialize is called. */
    var multipleOf: Option<Decimal>

    constructor ()
      ensures multipleOf == Some(Zero)
    {
      multipleOf := Some(Zero);
    }

    /** initialize: takes the divisor from the annotation and changes nothing else. */
    method Initialize(annotation: MultipleOfAnnotation)
      modifies this
      ensures multipleOf == Some(annotation.value)
    {
      multipleOf := Some(annotation.value);
    }

    /**
     * isValid: the remainder of the source by the divisor compared with zero,
     * after the null-divisor and empty-source checks. The remainder is taken on
     * both numbers written at their common scale.
     */
    method IsValid(source: Source) returns (valid: bool)
      requires !DividesByZero(multipleOf, source)
      ensures valid == Accepts(multipleOf, source)
    {
      if multipleOf.None? {
        return false;
      }
      if !source.Numeral? {
        return true;
      }
      var value, divisor := source.value, multipleOf.value;
      var s: nat := if value.scale >= divisor.scale then (if value.scale >= 0 then value.scale else 0)
                    else (if divisor.scale >= 0 then divisor.scale else 0);
      var dividend, aligned := Aligned(value, s), Aligned(divisor, s);
      var remainder := dividend % aligned;
      MultipleOfAligned(value, divisor, s);
      DividesIff(dividend, aligned);
      valid := remainder == 0;
    }
  }

  // ---------------------------------------------------------------------------
  // Properties
  // ---------------------------------------------------------------------------

  /** Rescaling does not change the number a decimal stands for. */
  lemma RescaleValue(d: Decimal, extra: nat)
    ensures Value(Rescale(d, extra)) == Value(d)
  {
    var s := if d.scale >= 0 then d.scale + extra else extra;
    assert s >= d.scale && s >= d.scale + extra;
    AlignedValue(d, s);
    AlignedValue(Rescale(d, extra), s);
    Pow10Add(extra, s - d.scale - extra);
    MulAssoc(d.unscaled, Pow10(extra), Pow10(s - d.scale - extra));
    assert Aligned(Rescale(d, extra), s) == Aligned(d, s);
  }

  /** Whether a number is accepted does not depend on how many digits either number is written with. */
  lemma ScaleIrrelevant(v: Decimal, d: Decimal, m: nat, n: nat)
    ensures MultipleOf(Rescale(v, m), Rescale(d, n)) <==> MultipleOf(v, d)
  {
    RescaleValue(v, m);
    RescaleValue(d, n);
  }

  /** Zero, at any scale, is a multiple of every divisor. */
  lemma ZeroIsMultiple(scale: int, d: Decimal)
    ensures MultipleOf(Decimal(0, scale), d)
  {
    var zero := Decimal(0, scale);
    assert Value(zero) == 0.0 by {
      if scale < 0 {
        assert 0 * Pow10(-scale) == 0;
      }
    }
    assert Value(zero) == Times(0, Value(d));
  }

  /** Every integer multiple of the divisor, written at the divisor's scale, is accepted. */
  lemma MultiplesAccepted(k: int, d: Decimal)
    ensures MultipleOf(Decimal(k * d.unscaled, d.scale), d)
  {
    var v := Decimal(k * d.unscaled, d.scale);
    var s: nat := if d.scale >= 0 then d.scale else 0;
    MultipleOfAligned(v, d, s);
    assert Aligned(v, s) == k * Aligned(d, s);
  }

  /** A fresh validator accepts a null or empty source; any number would divide by its zero divisor. */
  method FreshValidatorAcceptsEmpty(source: Source) returns (valid: bool)
    requires !source.Numeral?
    ensures valid
  {
    var v := new MultipleOfValidator();
    valid := v.IsValid(source);
  }
}
