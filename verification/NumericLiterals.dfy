/** Conversion of a parsed numeric literal to a scaled integer: saturation, rounding and
    exponent handling of datatypes/numericliteral.h. */
module NumericLiterals {
  import opened MachineInts
  import opened Digits
  import opened DataConditions
  import opened LiteralGrammar

  // ---------- what a literal denotes ----------

  /** All digits of the literal as one integer. */
  function Coefficient(l: Literal): (n: nat)
    requires l.Valid()
  {
    ValAppend(l.integral, l.fraction);
    Val(l.integral + l.fraction)
  }

  function ExponentOf(l: Literal): (e: int)
    requires l.Valid()
  {
    if l.expNegative then -Val(l.expDigits) else Val(l.expDigits)
  }

  /** |literal| * 10^scale, rounded half away from zero. */
  function Rounded(l: Literal, scale: nat): (n: nat)
    requires l.Valid()
  {
    RoundScaled(Coefficient(l), ExponentOf(l) + scale - |l.fraction|)
  }

  /** The exponent the source can represent. */
  predicate ExponentFits(l: Literal)
    requires l.Valid()
  {
    SInt64.Holds(ExponentOf(l))
  }

  // ---------- digits to integers ----------

  /** Decimal digits appended to a number. */
  function Append(start: nat, s: string): (n: nat)
    requires AllDigits(s)
  {
    start * Pow10(|s|) + Val(s)
  }

  lemma {:induction false} AppendNext(start: nat, s: string, i: nat)
    requires AllDigits(s) && i < |s|
    ensures AllDigits(s[..i]) && AllDigits(s[..i + 1])
    ensures Append(start, s[..i + 1]) == 10 * Append(start, s[..i]) + DigitVal(s[i])
  {
    assert s[..i + 1][..i] == s[..i];
    assert start * Pow10(i + 1) == 10 * (start * Pow10(i));
  }

  lemma {:induction false} AppendGrows(start: nat, s: string, i: nat)
    requires AllDigits(s) && i <= |s|
    ensures AllDigits(s[..i]) && Append(start, s[..i]) <= Append(start, s)
  {
    var a, b := s[..i], s[i..];
    assert s == a + b;
    AppendTwice(start, a, b);
    Pow10Mono(0, |b|);
    Grows(Append(start, a), Pow10(|b|), Val(b), Append(start, s));
  }

  lemma Grows(x: nat, p: int, v: nat, y: int)
    requires p >= 1 && y == x * p + v
    ensures x <= y
  {
    MulMono(1, p, x);
  }

  lemma {:induction false} AppendTwice(start: nat, a: string, b: string)
    requires AllDigits(a) && AllDigits(b)
    ensures AllDigits(a + b)
    ensures Append(start, a + b) == Append(start, a) * Pow10(|b|) + Val(b)
  {
    ValAppend(a, b);
    Pow10Add(|a|, |b|);
    Assoc(start, Pow10(|a|), Pow10(|b|));
    Distribute(start * Pow10(|a|), Val(a), Pow10(|b|));
  }

  lemma {:induction false} AppendJoins(a: string, b: string)
    requires AllDigits(a) && AllDigits(b)
    ensures AllDigits(a + b)
    ensures Append(Append(0, a), b) == Val(a + b)
    ensures Append(0, a) == Val(a)
  {
    ValAppend(a, b);
  }

  method ToXIntPositiveContinue(t: IntType, s: string, start: int, error: DataCondition) returns (val: int)
    requires AllDigits(s) && 0 <= start <= t.Max()
    modifies error
    ensures val == Least(Append(start, s), t.Max())
    ensures error.mError == old(error.mError) + OutOfRange(Append(start, s) > t.Max())
  {
    val := start;
    for i := 0 to |s|
      invariant AllDigits(s[..i]) && val == Append(start, s[..i]) <= t.Max()
      invariant error.mError == old(error.mError)
    {
      var cutoff := t.Max() / 10;
      AppendNext(start, s, i);
      AppendGrows(start, s, i + 1);
      if val > cutoff {
        error.Raise(NumericValueOutOfRange);
        return t.Max();
      }
      val := val * 10;
      var newval := t.Wrap(val + DigitVal(s[i]));
      WrapAboveMax(t, val, DigitVal(s[i]));
      if newval < val {
        error.Raise(NumericValueOutOfRange);
        return t.Max();
      }
      val := newval;
    }
    assert s[..|s|] == s;
  }

  // Adding a digit overflows exactly when the wrapped sum is smaller.
  lemma {:induction false} WrapAboveMax(t: IntType, val: int, d: int)
    requires 0 <= val <= t.Max() && 0 <= d <= 9
    ensures t.Wrap(val + d) < val <==> val + d > t.Max()
    ensures val + d <= t.Max() ==> t.Wrap(val + d) == val + d
  {
    if val + d > t.Max() {
      WrapCongruent(t, val + d, val + d - t.Modulus());
    }
  }

  // The representable value congruent to x is its wrapped value.
  lemma {:induction false} WrapCongruent(t: IntType, x: int, r: int)
    requires t.Holds(r) && r == x - t.Modulus()
    ensures t.Wrap(x) == r
  {
    var k := t.Modulus();
    if r >= 0 {
      DivModUnique(x, k, 1, r);
    } else {
      DivModUnique(x, k, 0, x);
    }
  }

  method ToSIntNegative(t: IntType, s: string, error: DataCondition) returns (val: int)
    requires AllDigits(s) && t in {SInt64, SInt128}
    modifies error
    ensures val == if -Val(s) >= t.Min() then -Val(s) else t.Min()
    ensures error.mError == old(error.mError) + OutOfRange(-Val(s) < t.Min())
  {
    val := 0;
    for i := 0 to |s|
      invariant AllDigits(s[..i]) && -val == Append(0, s[..i]) <= -t.Min()
      invariant error.mError == old(error.mError)
    {
      var cutoff := TDiv(t.Min(), 10);
      AppendNext(0, s, i);
      AppendGrows(0, s, i + 1);
      if val < cutoff {
        error.Raise(NumericValueOutOfRange);
        return t.Min();
      }
      val := val * 10;
      var newval := t.Wrap(val - DigitVal(s[i]));
      WrapBelowMin(t, val, DigitVal(s[i]));
      if newval > val {
        error.Raise(NumericValueOutOfRange);
        return t.Min();
      }
      val := newval;
    }
    assert s[..|s|] == s;
  }

  lemma {:induction false} WrapBelowMin(t: IntType, val: int, d: int)
    requires t in {SInt64, SInt128} && t.Min() <= val <= 0 && 0 <= d <= 9
    ensures t.Wrap(val - d) > val <==> val - d < t.Min()
    ensures val - d >= t.Min() ==> t.Wrap(val - d) == val - d
  {
    if val - d < t.Min() {
      DivModUnique(val - d, t.Modulus(), -1, val - d + t.Modulus());
    }
  }

  method ToXIntPositiveRoundAwayFromZeroContinue(t: IntType, s: string, start: int, round: bool,
                                                 error: DataCondition)
    returns (val: int)
    requires AllDigits(s) && 0 <= start <= t.Max()
    modifies error
    ensures var exact := Append(start, s) + if round then 1 else 0;
            && val == Least(exact, t.Max())
            && error.mError == old(error.mError) + OutOfRange(exact > t.Max())
  {
    val := ToXIntPositiveContinue(t, s, start, error);
    if val == t.Max() && round {
      error.Raise(NumericValueOutOfRange);
      return;
    }
    val := val + if round then 1 else 0;
  }

  // ---------- integral and fractional digits together ----------

  // Once a prefix has saturated the rest keeps it saturated.
  lemma {:induction false} SaturatedPrefix(max: int, a: string, b: string)
    requires AllDigits(a) && AllDigits(b) && 0 < max < Val(a)
    ensures AllDigits(a + b) && Val(a + b) > max
  {
    ValAppend(a, b);
    ScaledUpExceeds(Val(a), Pow10(|b|), max);
  }

  lemma {:induction false} ScaledUpExceeds(x: int, p: int, max: int)
    requires 0 < max < x && 0 < p
    ensures x * p > max
  {
    MulMono(1, p, x);
  }

  lemma {:induction false} AppendToSaturated(max: int, b: string)
    requires 0 < max && AllDigits(b)
    ensures Append(max, b) >= max
  {
    Pow10Mono(0, |b|);
    MulMono(1, Pow10(|b|), max);
  }

  method DecimalToXIntPositive(t: IntType, intg: string, frac: string, round: bool, error: DataCondition)
    returns (val: int)
    requires AllDigits(intg) && AllDigits(frac)
    modifies error
    ensures AllDigits(intg + frac)
    ensures var exact := Val(intg + frac) + if round then 1 else 0;
            && val == Least(exact, t.Max())
            && error.mError == old(error.mError) + OutOfRange(exact > t.Max())
  {
    AppendJoins(intg, frac);
    val := ToXIntPositiveContinue(t, intg, 0, error);
    if Val(intg) > t.Max() {
      SaturatedPrefix(t.Max(), intg, frac);
      AppendToSaturated(t.Max(), frac);
    }
    val := ToXIntPositiveRoundAwayFromZeroContinue(t, frac, val, round, error);
  }

  // The conversion stops early, without raising anything, when the digits alone already
  // equal the largest value of the type.
  method ToXIntPositiveScaleUp(t: IntType, intg: string, frac: string, scale: nat, error: DataCondition)
    returns (val: int)
    requires AllDigits(intg) && AllDigits(frac)
    modifies error
    ensures AllDigits(intg + frac)
    ensures var digits := Val(intg + frac);
            && val == Least(digits * Pow10(scale), t.Max())
            && error.mError == old(error.mError) +
                 OutOfRange(digits * Pow10(scale) > t.Max() && !(scale > 0 && digits == t.Max()))
  {
    val := DecimalToXIntPositive(t, intg, frac, false, error);
    TimesPowerAtLeast(Val(intg + frac), scale);
    if val == t.Max() {
      return;
    }
    val := MultiplyByTens(t, val, scale, error);
  }

  lemma {:induction false} TimesPowerAtLeast(n: int, k: nat)
    requires 0 <= n
    ensures n * Pow10(k) >= n && (k > 0 && n > 0 ==> n * Pow10(k) > n) && n * Pow10(0) == n
  {
    Pow10Mono(0, k);
    MulMono(1, Pow10(k), n);
    if k > 0 {
      Pow10Mono(1, k);
      MulMono(10, Pow10(k), n);
    }
  }

  lemma {:induction false} TenTimesMore(n: int, done: nat, k: nat)
    requires 0 <= n && done < k
    ensures n * Pow10(done + 1) == 10 * (n * Pow10(done))
    ensures n * Pow10(done + 1) <= n * Pow10(k)
  {
    Assoc(n, Pow10(done), 10);
    Pow10Mono(done + 1, k);
    MulMono(Pow10(done + 1), Pow10(k), n);
  }

  method MultiplyByTens(t: IntType, start: int, scale: nat, error: DataCondition) returns (val: int)
    requires 0 <= start <= t.Max()
    modifies error
    ensures val == Least(start * Pow10(scale), t.Max())
    ensures error.mError == old(error.mError) + OutOfRange(start * Pow10(scale) > t.Max())
  {
    val := start;
    var left := scale;
    TimesPowerAtLeast(start, scale);
    while left > 0
      invariant 0 <= left <= scale
      invariant val == start * Pow10(scale - left) <= t.Max()
      invariant error.mError == old(error.mError)
    {
      var cutoff := t.Max() / 10;
      TenTimesMore(start, scale - left, scale);
      if val > cutoff {
        error.Raise(NumericValueOutOfRange);
        return t.Max();
      }
      val := val * 10;
      left := left - 1;
    }
  }

  /** Exponent of ten that remains once the fraction digits count as integral ones. */
  function Shift(frac: string, absExp: int, negExp: bool): (k: int)
    requires 0 <= absExp
  {
    (if negExp then -absExp else absExp) - |frac|
  }

  method ToXIntPositiveRoundExp(t: IntType, intg: string, frac: string, absExp: int, negExp: bool,
                                error: DataCondition)
    returns (val: int)
    requires AllDigits(intg) && AllDigits(frac) && 0 <= absExp
    modifies error
    ensures AllDigits(intg + frac)
    ensures var digits, k := Val(intg + frac), Shift(frac, absExp, negExp);
            && val == Least(RoundScaled(digits, k), t.Max())
            && error.mError == old(error.mError) +
                 OutOfRange(RoundScaled(digits, k) > t.Max() && !(k > 0 && digits == t.Max()))
  {
    ValAppend(intg, frac);
    if absExp == 0 {
      val := ToXIntPositiveRound(t, intg, frac, error);
      return;
    }
    if negExp {
      val := RoundNegativeExp(t, intg, frac, absExp, error);
      return;
    }
    if |frac| >= absExp {
      val := RoundInFraction(t, intg, frac, absExp, error);
      return;
    }
    val := ToXIntPositiveScaleUp(t, intg, frac, absExp - |frac|, error);
  }

  // The decimal point moves right, inside the fraction or to its end.
  method RoundInFraction(t: IntType, intg: string, frac: string, absExp: nat, error: DataCondition)
    returns (val: int)
    requires AllDigits(intg) && AllDigits(frac) && absExp <= |frac|
    modifies error
    ensures AllDigits(intg + frac)
    ensures var exact := RoundScaled(Val(intg + frac), absExp - |frac|);
            && val == Least(exact, t.Max())
            && error.mError == old(error.mError) + OutOfRange(exact > t.Max())
  {
    RoundWithinFraction(intg, frac, absExp);
    var roundUp := |frac| > absExp && frac[absExp] >= '5';
    val := DecimalToXIntPositive(t, intg, frac[..absExp], roundUp, error);
  }

  lemma RoundWithinFraction(intg: string, frac: string, n: nat)
    requires AllDigits(intg) && AllDigits(frac) && n <= |frac|
    ensures AllDigits(intg + frac) && AllDigits(intg + frac[..n]) && AllDigits(frac[..n])
    ensures RoundScaled(Val(intg + frac), n - |frac|)
         == Val(intg + frac[..n]) + if |frac| > n && frac[n] >= '5' then 1 else 0
  {
    if |frac| > n {
      RoundAtFractionDigit(intg, frac, n);
    } else {
      ValAppend(intg, frac);
      assert frac[..n] == frac;
    }
  }

  method ToXIntPositiveRound(t: IntType, intg: string, frac: string, error: DataCondition) returns (val: int)
    requires AllDigits(intg) && AllDigits(frac)
    modifies error
    ensures AllDigits(intg + frac)
    ensures var exact := RoundScaled(Val(intg + frac), -|frac|);
            && val == Least(exact, t.Max())
            && error.mError == old(error.mError) + OutOfRange(exact > t.Max())
  {
    ValAppend(intg, frac);
    var roundUp := |frac| > 0 && frac[0] >= '5';
    if frac == [] {
      assert intg + frac == intg;
    } else {
      RoundAtFractionDigit(intg, frac, 0);
    }
    assert intg + frac[..0] == intg + [] == intg;
    val := DecimalToXIntPositive(t, intg, [], roundUp, error);
  }

  method RoundNegativeExp(t: IntType, intg: string, frac: string, absExp: int, error: DataCondition)
    returns (val: int)
    requires AllDigits(intg) && AllDigits(frac) && 0 < absExp
    modifies error
    ensures AllDigits(intg + frac)
    ensures var exact := RoundScaled(Val(intg + frac), -absExp - |frac|);
            && val == Least(exact, t.Max())
            && error.mError == old(error.mError) + OutOfRange(exact > t.Max())
  {
    ValAppend(intg, frac);
    if |intg| >= absExp {
      RoundAtIntegralDigit(intg, frac, absExp);
    }
    if |intg| == absExp {
      return if intg[0] >= '5' then 1 else 0;
    }
    if |intg| < absExp {
      TinyRoundsToZero(intg + frac, -absExp - |frac|);
      return 0;
    }
    var diff := |intg| - absExp;
    var roundUp := intg[diff] >= '5';
    assert intg[..diff] + [] == intg[..diff];
    val := DecimalToXIntPositive(t, intg[..diff], [], roundUp, error);
  }

  // The first digit left of the cut decides: a digit of the integral part ...
  lemma {:induction false} RoundAtIntegralDigit(intg: string, frac: string, absExp: int)
    requires AllDigits(intg) && AllDigits(frac) && 0 < absExp <= |intg|
    ensures AllDigits(intg + frac)
    ensures RoundScaled(Val(intg + frac), -absExp - |frac|)
         == Val(intg[..|intg| - absExp]) + if intg[|intg| - absExp] >= '5' then 1 else 0
  {
    ValAppend(intg, frac);
    DroppedIsRounded(intg + frac, absExp + |frac|);
    assert (intg + frac)[..|intg| - absExp] == intg[..|intg| - absExp];
  }

  // ... or a digit of the fraction.
  lemma {:induction false} RoundAtFractionDigit(intg: string, frac: string, n: nat)
    requires AllDigits(intg) && AllDigits(frac) && n < |frac|
    ensures AllDigits(intg + frac) && AllDigits(intg + frac[..n])
    ensures RoundScaled(Val(intg + frac), n - |frac|)
         == Val(intg + frac[..n]) + if frac[n] >= '5' then 1 else 0
  {
    ValAppend(intg, frac);
    DroppedIsRounded(intg + frac, |frac| - n);
    assert (intg + frac)[..|intg| + n] == intg + frac[..n];
  }

  // ---------- the literal ----------

  // A number of at least 40 digits exceeds every integer type.
  lemma {:induction false} HugeSaturates(t: IntType, n: nat, k: int)
    requires 0 < n && k >= 39
    ensures RoundScaled(n, k) > t.Max()
  {
    Pow10Constants();
    Pow10Mono(39, k);
    MulMono(1, n, Pow10(k));
  }

  // A number below one half rounds to zero.
  lemma {:induction false} TinyRoundsToZero(digits: string, k: int)
    requires AllDigits(digits) && k < -|digits|
    ensures RoundScaled(Val(digits), k) == 0
  {
    DroppedIsRounded(digits, -k);
  }

  /** Equal, or both beyond what any literal of addressable length can compensate. */
  predicate SameShift(a: int, b: int)
  {
    a == b || (a >= TWO62 + 39 && b >= TWO62 + 39) || (a <= -TWO62 && b <= -TWO62)
  }

  lemma {:induction false} SameShiftRoundsAlike(t: IntType, l: Literal, scale: nat, exp: int)
    requires l.Valid() && |l.integral| + |l.fraction| < TWO62 && Coefficient(l) != 0
    requires SameShift(exp, ExponentOf(l) + scale)
    ensures var r := RoundScaled(Coefficient(l), exp - |l.fraction|);
            && Least(r, t.Max()) == Least(Rounded(l, scale), t.Max())
            && (r > t.Max() <==> Rounded(l, scale) > t.Max())
            && (exp > |l.fraction| <==> ExponentOf(l) + scale > |l.fraction|)
  {
    var k := ExponentOf(l) + scale - |l.fraction|;
    if exp - |l.fraction| != k {
      ValAppend(l.integral, l.fraction);
      if exp > 0 {
        HugeSaturates(t, Coefficient(l), k);
        HugeSaturates(t, Coefficient(l), exp - |l.fraction|);
      } else {
        TinyRoundsToZero(l.integral + l.fraction, k);
        TinyRoundsToZero(l.integral + l.fraction, exp - |l.fraction|);
      }
    }
  }

  // A nonzero literal whose exponent does not fit 64 bits.
  predicate BadExponent(l: Literal)
    requires l.Valid()
  {
    Coefficient(l) != 0 && !ExponentFits(l)
  }

  // The rounded magnitude exceeds max and is noticed: digits that equal max are not scaled up.
  predicate Overflows(l: Literal, scale: nat, max: int)
    requires l.Valid()
  {
    Rounded(l, scale) > max && !(ExponentOf(l) + scale > |l.fraction| && Coefficient(l) == max)
  }

  class SignedNumericLiteral {
    var negative: bool
    var integral: string
    var fraction: string
    var expNegative: bool
    var expDigits: string

    ghost function Abstract(): (l: Literal)
      reads this
    {
      Literal(negative, integral, fraction, expNegative, expDigits)
    }

    constructor (l: Literal)
      ensures Abstract() == l
    {
      negative, integral, fraction := l.negative, l.integral, l.fraction;
      expNegative, expDigits := l.expNegative, l.expDigits;
    }

    // Dropping leading integral and exponent zeros and trailing fraction zeros leaves the
    // denoted number alone, and leaves no digit exactly when that number is zero.
    method Normalize()
      requires Abstract().Valid()
      modifies this
      ensures Abstract().Valid()
      ensures negative == old(negative)
      ensures ExponentOf(Abstract()) == ExponentOf(old(Abstract()))
      ensures forall scale: nat :: Rounded(Abstract(), scale) == Rounded(old(Abstract()), scale)
      ensures |integral| + |fraction| <= old(|integral| + |fraction|)
      ensures (integral == [] && fraction == []) <==> Coefficient(old(Abstract())) == 0
      ensures (integral == [] && fraction == []) <==> Coefficient(Abstract()) == 0
    {
      ghost var l0 := Abstract();
      var intg := SkipLeadingZeroDigits(integral);
      var frac := SkipTrailingZeroDigits(fraction);
      var exp := SkipLeadingZeroDigits(expDigits);
      integral, fraction, expDigits := intg, frac, exp;
      NormalizedCoefficient(l0, intg, frac);
      SameNumber(l0, Abstract());
    }

    // The exponent plus the scale, each step saturating. It differs from the true sum
    // only where both are so extreme that the literal saturates or vanishes anyway.
    method PackedExponent(scale: nat, error: DataCondition) returns (exp: int)
      requires Abstract().Valid() && scale < TWO32
      modifies error
      ensures -TWO63 < exp < TWO63
      ensures SameShift(exp, ExponentOf(Abstract()) + scale)
      ensures error.mError == old(error.mError) + OutOfRange(!ExponentFits(Abstract()))
    {
      if expNegative {
        exp := ToSIntNegative(SInt64, expDigits, error);
      } else {
        exp := ToXIntPositiveContinue(SInt64, expDigits, 0, error);
      }
      if exp <= SInt64.Max() - scale {
        exp := exp + scale;
      }
      if exp == SInt64.Min() {
        exp := exp + 1;
      }
    }

    method ToPackedDecimalPositive(t: IntType, scale: nat, error: DataCondition) returns (val: int)
      requires Abstract().Valid() && |integral| + |fraction| < TWO62 && scale < TWO32
      requires (integral == [] && fraction == []) <==> Coefficient(Abstract()) == 0
      modifies error
      ensures val == Least(Rounded(Abstract(), scale), t.Max())
      ensures error.mError == old(error.mError)
                + OutOfRange(BadExponent(Abstract()) || Overflows(Abstract(), scale, t.Max()))
    {
      if |integral| + |fraction| == 0 {
        RoundZero(ExponentOf(Abstract()) + scale - |fraction|);
        return 0;
      }
      var exp := PackedExponent(scale, error);
      SameShiftRoundsAlike(t, Abstract(), scale, exp);
      if exp < 0 {
        val := ToXIntPositiveRoundExp(t, integral, fraction, -exp, true, error);
        return;
      }
      val := ToXIntPositiveRoundExp(t, integral, fraction, exp, false, error);
    }

    // t is a signed type. The magnitude goes through the unsigned type of the same width.
    method ToPackedSDecimal(t: IntType, scale: nat, error: DataCondition) returns (val: int)
      requires t in {SInt64, SInt128}
      requires Abstract().Valid() && |integral| + |fraction| < TWO62 && scale < TWO32
      requires (integral == [] && fraction == []) <==> Coefficient(Abstract()) == 0
      modifies error
      ensures var n := Rounded(Abstract(), scale);
              && (!negative ==> val == Least(n, t.Max()))
              && (negative ==> val == -Least(n, -t.Min()))
      ensures error.mError == old(error.mError)
                + OutOfRange(BadExponent(Abstract()) || if negative then Rounded(Abstract(), scale) > t.Max()
                                                        else Overflows(Abstract(), scale, t.Max()))
    {
      if !negative {
        val := ToPackedDecimalPositive(t, scale, error);
        return;
      }
      var ut := if t == SInt64 then UInt64 else UInt128;
      var absval := ToPackedDecimalPositive(ut, scale, error);
      if absval >= -t.Min() {
        error.Raise(NumericValueOutOfRange);
        return t.Min();
      }
      val := -absval;
    }
  }

  lemma {:induction false} RoundZero(k: int)
    ensures RoundScaled(0, k) == 0
  {
    if k < 0 {
      RoundExact(0, Pow10(-k));
    }
  }

  lemma {:induction false} DropZero(s: string)
    requires AllDigits(s) && s != []
    ensures AllDigits(s[1..]) && (s[0] == '0' ==> Val(s[1..]) == Val(s))
  {
    assert s == [s[0]] + s[1..];
    ValAppend([s[0]], s[1..]);
  }

  method SkipLeadingZeroDigits(s: string) returns (r: string)
    requires AllDigits(s)
    ensures AllDigits(r) && Val(r) == Val(s) && |r| <= |s|
    ensures r != [] ==> r[0] != '0'
  {
    r := s;
    while |r| > 0 && r[0] == '0'
      invariant |r| <= |s| && AllDigits(r) && Val(r) == Val(s)
    {
      DropZero(r);
      r := r[1..];
    }
  }

  method SkipTrailingZeroDigits(s: string) returns (r: string)
    requires AllDigits(s)
    ensures AllDigits(r) && |r| <= |s| && Val(s) == Val(r) * Pow10(|s| - |r|)
    ensures r != [] ==> r[|r| - 1] != '0'
  {
    r := s;
    while |r| > 0 && r[|r| - 1] == '0'
      invariant |r| <= |s| && AllDigits(r) && Val(s) == Val(r) * Pow10(|s| - |r|)
    {
      ghost var r' := r[..|r| - 1];
      assert Val(r) == 10 * Val(r');
      Assoc(Val(r'), 10, Pow10(|s| - |r|));
      r := r[..|r| - 1];
    }
  }

  lemma {:induction false} NormalizedCoefficient(l: Literal, intg: string, frac: string)
    requires l.Valid() && AllDigits(intg) && AllDigits(frac)
    requires Val(intg) == Val(l.integral) && |frac| <= |l.fraction|
    requires Val(l.fraction) == Val(frac) * Pow10(|l.fraction| - |frac|)
    requires intg != [] ==> intg[0] != '0'
    requires frac != [] ==> frac[|frac| - 1] != '0'
    ensures AllDigits(intg + frac)
    ensures Coefficient(l) == Val(intg + frac) * Pow10(|l.fraction| - |frac|)
    ensures (intg == [] && frac == []) <==> Val(intg + frac) == 0
    ensures (intg == [] && frac == []) <==> Coefficient(l) == 0
  {
    var z := |l.fraction| - |frac|;
    ValAppend(l.integral, l.fraction);
    ValAppend(intg, frac);
    Pow10Add(|frac|, z);
    ShiftBoth(Val(intg), Pow10(|frac|), Val(frac), Pow10(z));
    NoDigitIffZero(intg, frac);
    ZeroFactor(Val(intg + frac), Pow10(z));
  }

  lemma ShiftBoth(a: int, p: int, f: int, z: int)
    ensures a * (p * z) + f * z == (a * p + f) * z
  {
    Assoc(a, p, z);
    Distribute(a * p, f, z);
  }

  lemma ZeroFactor(n: int, z: int)
    requires 0 <= n && 0 < z
    ensures n * z == 0 <==> n == 0
  {
    if n > 0 {
      MulMono(1, n, z);
    }
  }

  // Literals that differ by trailing fraction zeros round alike at every scale.
  lemma {:induction false} SameNumber(l: Literal, m: Literal)
    requires l.Valid() && m.Valid() && |m.fraction| <= |l.fraction| && ExponentOf(l) == ExponentOf(m)
    requires Coefficient(l) == Coefficient(m) * Pow10(|l.fraction| - |m.fraction|)
    ensures forall scale: nat :: Rounded(m, scale) == Rounded(l, scale)
  {
    forall scale: nat
      ensures Rounded(m, scale) == Rounded(l, scale)
    {
      RoundScaledShift(Coefficient(m), ExponentOf(l) + scale - |m.fraction|, |l.fraction| - |m.fraction|);
    }
  }

  lemma {:induction false} NoDigitIffZero(intg: string, frac: string)
    requires AllDigits(intg) && AllDigits(frac)
    requires intg != [] ==> intg[0] != '0'
    requires frac != [] ==> frac[|frac| - 1] != '0'
    ensures AllDigits(intg + frac)
    ensures (intg == [] && frac == []) <==> Val(intg + frac) == 0
  {
    ValAppend(intg, frac);
    if intg != [] {
      ValLowerBound(intg);
      MulMono(1, Val(intg), Pow10(|frac|));
    }
  }
}
