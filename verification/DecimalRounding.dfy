/** Floor, ceiling and rounding of decimals to integers, in both widths
    (datatypes/mcs_decimal.h, datatypes/mcs_int128.h, datatypes/mcs_int64.h). */
module DecimalRounding {
  import opened MachineInts
  import opened Digits
  import opened Decimals

  // ---------- the code ----------

  // DecomposedDecimal<T>
  datatype Decomposed = Decomposed(t: IntType, divisor: int, integral: int, fractional: int) {

    function ToSIntRound(): (r: int)
    {
      var frac2 := t.Wrap(2 * fractional);
      if frac2 >= divisor then t.Wrap(integral + 1)
      else if frac2 <= -divisor then t.Wrap(integral - 1)
      else integral
    }

    function ToSIntRoundPositive(): (r: int)
    {
      var frac2 := t.Wrap(2 * fractional);
      if frac2 >= divisor then t.Wrap(integral + 1) else integral
    }

    function ToSIntFloor(): (r: int)
    {
      if fractional < 0 then t.Wrap(integral - 1) else integral
    }

    function ToSIntCeil(): (r: int)
    {
      if fractional > 0 then t.Wrap(integral + 1) else integral
    }
  }

  function Decompose(t: IntType, value: int, scale: nat): (r: Decomposed)
    requires scale <= 38
  {
    var d := ScaleDivisor(scale);
    Decomposed(t, d, TDiv(value, d), TMod(value, d))
  }

  // Saturating conversion of a 128-bit or 64-bit value.
  function Saturate(t: IntType, x: int): (r: int)
    ensures x > t.Max() ==> r == t.Max()
    ensures x < t.Min() ==> r == t.Min()
    ensures t.Holds(x) ==> r == x
  {
    if x > t.Max() then t.Max() else if x < t.Min() then t.Min() else x
  }

  // getPosNegRoundedIntegralPart: rounds by the first fraction digit.
  method PosNegRoundedIntegralPart(s128Value: int, scale: nat, roundingFactor: int) returns (roundedValue: int)
    requires SInt128.Holds(s128Value) && scale <= 38 && 0 <= roundingFactor <= 255
    ensures roundedValue == RoundedByDigit(TDiv(s128Value, Pow10(scale)),
                                           FirstFractionDigit(s128Value, scale), roundingFactor)
  {
    var flooredScaleDivisor := ScaleDivisor(scale);
    roundedValue := TDiv(s128Value, flooredScaleDivisor);
    var ceiledScaleDivisor := if flooredScaleDivisor <= 10 then 1 else flooredScaleDivisor / 10;
    TDivMod(s128Value, flooredScaleDivisor);
    FirstDigitDivisor(scale);
    var leftO := TDiv(s128Value - roundedValue * flooredScaleDivisor, ceiledScaleDivisor);
    if roundedValue >= 0 && leftO > roundingFactor {
      roundedValue := roundedValue + 1;
    }
    if roundedValue < 0 && leftO < -roundingFactor {
      roundedValue := roundedValue - 1;
    }
  }

  // The first digit after the point, with the sign of the value; 0 when there is no fraction.
  function FirstFractionDigit(v: int, scale: nat): (d: int)
  {
    if scale == 0 then 0 else TDiv(TMod(v, Pow10(scale)), Pow10(scale - 1))
  }

  // Away from zero when the digit exceeds the factor; the sign is taken from the quotient.
  function RoundedByDigit(q: int, digit: int, roundingFactor: int): (r: int)
  {
    if q >= 0 && digit > roundingFactor then q + 1
    else if q < 0 && digit < -roundingFactor then q - 1
    else q
  }

  lemma FirstDigitDivisor(scale: nat)
    ensures var d := Pow10(scale);
            (if d <= 10 then 1 else d / 10) == if scale == 0 then 1 else Pow10(scale - 1)
  {
    if scale > 1 {
      Pow10Mono(1, scale);
    }
  }

  // Decimal::toSInt64Floor, toSInt64Ceil, toUInt64Floor, toUInt64Ceil
  function ToInt64Floor(d: Decimal, target: IntType): (r: int)
    requires d.Valid()
  {
    Saturate(target, Decompose(if d.IsWide() then SInt128 else SInt64, d.Unscaled(), d.scale).ToSIntFloor())
  }

  function ToInt64Ceil(d: Decimal, target: IntType): (r: int)
    requires d.Valid()
  {
    Saturate(target, Decompose(if d.IsWide() then SInt128 else SInt64, d.Unscaled(), d.scale).ToSIntCeil())
  }

  // Decimal::toSInt64Round: the two widths round differently.
  method ToSInt64Round(d: Decimal) returns (r: int)
    requires d.Valid()
    ensures var v, unit := d.Unscaled(), Pow10(d.scale);
            var exact := RoundHalfAway(v, d.scale);
            r == if d.IsWide() && -unit < v && 2 * v <= -unit then 0
                 else if exact > 0x7fff_ffff_ffff_ffff then 0x7fff_ffff_ffff_ffff
                 else if exact < -0x8000_0000_0000_0000 then -0x8000_0000_0000_0000
                 else exact
    ensures r == SignedRound(d)
  {
    if d.IsWide() {
      var rounded := PosNegRoundedIntegralPart(d.s128Value, d.scale, 4);
      DigitRounds(d.s128Value, d.scale);
      r := Saturate(SInt64, rounded);
    } else {
      NarrowRound(d.value, d.scale);
      r := Decompose(SInt64, d.value, d.scale).ToSIntRound();
    }
  }

  // Decimal::toUInt64Round
  function ToUInt64Round(d: Decimal): (r: int)
    requires d.Valid()
  {
    if d.IsWide() then
      if d.s128Value <= 0 then 0
      else Least(Decompose(SInt128, d.s128Value, d.scale).ToSIntRoundPositive(), UInt64.Max())
    else
      if d.value < 0 then 0 else Decompose(SInt64, d.value, d.scale).ToSIntRound()
  }

  // ---------- the rationals ----------

  /** floor(v / 10^s): Dafny's division rounds down. */
  function Floor(v: int, s: nat): (r: int)
    ensures r * Pow10(s) <= v < (r + 1) * Pow10(s)
  {
    Distribute(v / Pow10(s), 1, Pow10(s));
    v / Pow10(s)
  }

  function Ceil(v: int, s: nat): (r: int)
    ensures (r - 1) * Pow10(s) < v <= r * Pow10(s)
  {
    SignRules(Floor(-v, s), Pow10(s));
    Distribute(-Floor(-v, s), 1, Pow10(s));
    Distribute(Floor(-v, s), 1, Pow10(s));
    -Floor(-v, s)
  }

  /** v / 10^s to the nearest integer, ties away from zero. */
  function RoundHalfAway(v: int, s: nat): (r: int)
  {
    if v < 0 then -(RoundHalfUp(-v, Pow10(s)) as int) else RoundHalfUp(v, Pow10(s))
  }

  // r - 1/2 and r + 1/2 enclose the rational; the end that is nearer to zero belongs to it.
  lemma RoundHalfAwayIs(v: int, s: nat)
    ensures var r := RoundHalfAway(v, s);
            && (v >= 0 ==> (2 * r - 1) * Pow10(s) <= 2 * v < (2 * r + 1) * Pow10(s))
            && (v <= 0 ==> (2 * r - 1) * Pow10(s) < 2 * v <= (2 * r + 1) * Pow10(s))
  {
    HalvesAround(RoundHalfUp(Abs(v), Pow10(s)), Abs(v), Pow10(s));
  }

  lemma HalvesAround(q: int, n: int, p: int)
    requires 2 * n - p < 2 * (q * p) <= 2 * n + p && 0 <= n && 0 < p && 0 <= q
    ensures (2 * q - 1) * p <= 2 * n < (2 * q + 1) * p
    ensures (-2 * q - 1) * p < -2 * n <= (-2 * q + 1) * p
    ensures n == 0 ==> q == 0
  {
    Distribute(2 * q, 1, p);
    Assoc(2, q, p);
    SignRules(2 * q + 1, p);
    SignRules(2 * q - 1, p);
    if q > 0 {
      MulMono(1, q, p);
    }
  }

  /** -1 < v / 10^s <= -1/2 */
  predicate NegativeHalf(v: int, s: nat)
  {
    -Pow10(s) < v && 2 * v <= -Pow10(s)
  }

  // ---------- floor and ceiling ----------

  lemma QuotientInRange(t: IntType, v: int, s: nat)
    requires t in {SInt64, SInt128} && t.Holds(v)
    ensures var q, f := TDiv(v, Pow10(s)), TMod(v, Pow10(s));
            (f != 0 ==> t.Holds(q + 1) && t.Holds(q - 1))
  {
    var d := Pow10(s);
    TDivMod(v, d);
    var q, f := TDiv(v, d), TMod(v, d);
    if f != 0 && s > 0 {
      Pow10Mono(1, s);
      MulMono(10, d, Abs(q));
      SignRules(q, d);
    } else if s == 0 {
      TDivModUnique(v, 1, v, 0);
    }
  }

  // The code's floor and ceiling are the rational ones in both widths.
  lemma FloorAndCeil(t: IntType, v: int, s: nat)
    requires t in {SInt64, SInt128} && t.Holds(v) && s <= 38
    ensures Decompose(t, v, s).ToSIntFloor() == Floor(v, s)
    ensures Decompose(t, v, s).ToSIntCeil() == Ceil(v, s)
  {
    var d := Pow10(s);
    TDivMod(v, d);
    QuotientInRange(t, v, s);
    QuotientsFromTruncated(v, d, TDiv(v, d), TMod(v, d));
  }

  lemma QuotientsFromTruncated(v: int, d: int, q: int, f: int)
    requires 0 < d && v == q * d + f && -d < f < d
    ensures v / d == if f < 0 then q - 1 else q
    ensures (-v) / d == if f > 0 then -(q + 1) else -q
  {
    Distribute(q, 1, d);
    SignRules(q, d);
    SignRules(q + 1, d);
    if f < 0 {
      DivModUnique(v, d, q - 1, f + d);
      DivModUnique(-v, d, -q, -f);
    } else if f == 0 {
      DivModUnique(v, d, q, 0);
      DivModUnique(-v, d, -q, 0);
    } else {
      DivModUnique(v, d, q, f);
      DivModUnique(-v, d, -(q + 1), d - f);
    }
  }

  lemma FloorAndCeilOf(d: Decimal, target: IntType)
    requires d.Valid()
    ensures ToInt64Floor(d, target) == Saturate(target, Floor(d.Unscaled(), d.scale))
    ensures ToInt64Ceil(d, target) == Saturate(target, Ceil(d.Unscaled(), d.scale))
  {
    FloorAndCeil(if d.IsWide() then SInt128 else SInt64, d.Unscaled(), d.scale);
  }

  // Representations of the same number, of any width and scale, have the same floor and ceiling.
  lemma FloorAndCeilAgree(a: Decimal, b: Decimal, target: IntType)
    requires a.Valid() && b.Valid() && a.Unscaled() * Pow10(b.scale) == b.Unscaled() * Pow10(a.scale)
    ensures ToInt64Floor(a, target) == ToInt64Floor(b, target)
    ensures ToInt64Ceil(a, target) == ToInt64Ceil(b, target)
  {
    FloorAndCeilOf(a, target);
    FloorAndCeilOf(b, target);
    SameFloor(a.Unscaled(), a.scale, b.Unscaled(), b.scale);
  }

  lemma SameFloor(va: int, sa: nat, vb: int, sb: nat)
    requires va * Pow10(sb) == vb * Pow10(sa)
    ensures Floor(va, sa) == Floor(vb, sb) && Ceil(va, sa) == Ceil(vb, sb)
  {
    SameQuotients(va, Pow10(sa), vb, Pow10(sb));
  }

  lemma SameQuotients(va: int, da: int, vb: int, db: int)
    requires 0 < da && 0 < db && va * db == vb * da
    ensures va / da == vb / db && (-va) / da == (-vb) / db
  {
    DivModScaled(va, da, db);
    DivModScaled(vb, db, da);
    DivModScaled(-va, da, db);
    DivModScaled(-vb, db, da);
    SignRules(va, db);
    SignRules(vb, da);
  }

  // The same for rounding half away from zero.
  lemma SameRounding(va: int, sa: nat, vb: int, sb: nat)
    requires va * Pow10(sb) == vb * Pow10(sa)
    ensures RoundHalfAway(va, sa) == RoundHalfAway(vb, sb)
    ensures NegativeHalf(va, sa) <==> NegativeHalf(vb, sb)
  {
    SameSign(va, Pow10(sb), vb, Pow10(sa));
    if va < 0 {
      SignRules(va, Pow10(sb));
      SignRules(vb, Pow10(sa));
      SameNearest(-va, Pow10(sa), -vb, Pow10(sb));
      SameHalf(va, Pow10(sa), vb, Pow10(sb));
    } else {
      SameNearest(va, Pow10(sa), vb, Pow10(sb));
    }
  }

  lemma SameSign(va: int, db: int, vb: int, da: int)
    requires 0 < da && 0 < db && va * db == vb * da
    ensures va < 0 <==> vb < 0
  {
    if va < 0 && vb >= 0 {
      MulMono(va, -1, db);
      MulMono(0, vb, da);
    }
    if vb < 0 && va >= 0 {
      MulMono(vb, -1, da);
      MulMono(0, va, db);
    }
  }

  lemma SameNearest(va: nat, da: int, vb: nat, db: int)
    requires 0 < da && 0 < db && va * db == vb * da
    ensures RoundHalfUp(va, da) == RoundHalfUp(vb, db)
  {
    RoundHalfUpScaled(va, da, db);
    RoundHalfUpScaled(vb, db, da);
  }

  lemma SameHalf(va: int, da: int, vb: int, db: int)
    requires 0 < da && 0 < db && va * db == vb * da
    ensures -da < va && 2 * va <= -da ==> -db < vb && 2 * vb <= -db
    ensures -db < vb && 2 * vb <= -db ==> -da < va && 2 * va <= -da
  {
    Comparable(va, da, vb, db);
    Comparable(vb, db, va, da);
  }

  lemma Comparable(va: int, da: int, vb: int, db: int)
    requires 0 < da && 0 < db && va * db == vb * da
    ensures va <= -da ==> vb <= -db
    ensures 2 * va <= -da ==> 2 * vb <= -db
  {
    if va <= -da {
      StaysBelow(va, da, vb, db);
    }
    if 2 * va <= -da {
      Assoc(2, va, db);
      Assoc(2, vb, da);
      StaysBelow(2 * va, da, 2 * vb, db);
    }
  }

  lemma StaysBelow(x: int, da: int, y: int, db: int)
    requires 0 < da && 0 < db && x * db == y * da && x <= -da
    ensures y <= -db
  {
    if y > -db {
      SignRules(da, db);
      MulMono(x, -da, db);
      MulMono(-db + 1, y, da);
      Distribute(-db, 1, da);
    }
  }

  /** What ToSInt64Round gives. */
  function SignedRound(d: Decimal): (r: int)
    requires 0 <= d.scale
  {
    if d.IsWide() && NegativeHalf(d.Unscaled(), d.scale) then 0
    else Saturate(SInt64, RoundHalfAway(d.Unscaled(), d.scale))
  }

  // Representations of the same number round alike, exactly unless the number lies in (-1, -1/2] and
  // the widths differ.
  lemma RoundingsAgreeExactly(a: Decimal, b: Decimal)
    requires a.Valid() && b.Valid() && a.Unscaled() * Pow10(b.scale) == b.Unscaled() * Pow10(a.scale)
    ensures SignedRound(a) == SignedRound(b)
            <==> !(NegativeHalf(a.Unscaled(), a.scale) && a.IsWide() != b.IsWide())
  {
    SameRounding(a.Unscaled(), a.scale, b.Unscaled(), b.scale);
    DigitRounds(a.Unscaled(), a.scale);
  }

  // ---------- rounding ----------

  // Truncated quotient and remainder round like the magnitude does.
  lemma RoundByFraction(v: int, s: nat)
    ensures var d := Pow10(s);
            var q, f := TDiv(v, d), TMod(v, d);
            RoundHalfAway(v, s) == if 2 * f >= d then q + 1 else if 2 * f <= -d then q - 1 else q
  {
    var d := Pow10(s);
    TDivMod(v, d);
    var q, f := TDiv(v, d), TMod(v, d);
    Distribute(q, 1, d);
    if v >= 0 {
      RoundHalfUpUnique(v, d, if 2 * f >= d then q + 1 else q);
    } else {
      SignRules(q, d);
      SignRules(q - 1, d);
      RoundHalfUpUnique(-v, d, if 2 * f <= -d then -(q - 1) else -q);
    }
  }

  // 64 bits: doubling the fraction fits, and the result is the rational rounding.
  lemma NarrowRound(v: int, s: nat)
    requires SInt64.Holds(v) && s <= 18
    ensures Decompose(SInt64, v, s).ToSIntRound() == RoundHalfAway(v, s)
    ensures SInt64.Holds(RoundHalfAway(v, s))
  {
    RoundByFraction(v, s);
    QuotientInRange(SInt64, v, s);
    Pow10Constants();
    Pow10Mono(s, 18);
    TDivMod(v, Pow10(s));
  }

  // 128 bits, signed: the first fraction digit decides, but a quotient truncated to zero has
  // lost the sign, so values in (-1, -1/2] come out as 0 instead of -1.
  lemma DigitRounds(v: int, s: nat)
    ensures var r := RoundedByDigit(TDiv(v, Pow10(s)), FirstFractionDigit(v, s), 4);
            && (NegativeHalf(v, s) ==> r == 0 && RoundHalfAway(v, s) == -1)
            && (!NegativeHalf(v, s) ==> r == RoundHalfAway(v, s))
  {
    var d := Pow10(s);
    TDivMod(v, d);
    RoundByFraction(v, s);
    if s > 0 {
      DigitIsHalf(TMod(v, d), Pow10(s - 1));
    }
    SignLost(v, d);
  }

  // A value in (-1, -1/2] is one whose quotient is 0 and whose fraction is at most -1/2.
  lemma SignLost(v: int, d: int)
    requires 0 < d
    ensures -d < v && 2 * v <= -d <==> TDiv(v, d) == 0 && 2 * TMod(v, d) <= -d
    ensures TDiv(v, d) > 0 ==> TMod(v, d) >= 0
    ensures TDiv(v, d) < 0 ==> TMod(v, d) <= 0
  {
    TDivMod(v, d);
    if -d < v && 2 * v <= -d {
      TDivModUnique(v, d, 0, v);
    }
  }

  lemma DigitIsHalf(f: int, p: int)
    requires 0 < p
    ensures TDiv(f, p) > 4 <==> 2 * f >= 10 * p
    ensures TDiv(f, p) < -4 <==> 2 * f <= -10 * p
  {
    TDivMod(f, p);
    var q := TDiv(f, p);
    if q > 4 {
      MulMono(5, q, p);
    } else if q < -4 {
      MulMono(q, -5, p);
    } else {
      MulMono(q, 4, p);
      MulMono(-4, q, p);
    }
  }

  // The wide signed rounding is the rational one exactly outside (-1, -1/2].
  lemma WideRoundExactly(v: int, s: nat)
    ensures RoundedByDigit(TDiv(v, Pow10(s)), FirstFractionDigit(v, s), 4) == RoundHalfAway(v, s)
       <==> !NegativeHalf(v, s)
  {
    DigitRounds(v, s);
  }

  // -0.6 is such a value: it comes out as 0.
  lemma WideRoundLosesSign()
    ensures RoundedByDigit(TDiv(-6, Pow10(1)), FirstFractionDigit(-6, 1), 4) == 0
    ensures RoundHalfAway(-6, 1) == -1
  {
    assert Pow10(1) == 10 && Pow10(0) == 1;
    assert NegativeHalf(-6, 1);
    DigitRounds(-6, 1);
  }

  // 128 bits, unsigned: doubling the fraction overflows exactly when it reaches 2^126, which
  // needs scale 38, and then the half is lost.
  lemma UnsignedRoundExactly(d: Decimal)
    requires d.Valid()
    ensures var exact := if d.Unscaled() <= 0 then 0 else RoundHalfAway(d.Unscaled(), d.scale);
            ToUInt64Round(d) == Least(exact, UInt64.Max()) <==>
            !(d.IsWide() && d.s128Value > 0 && d.s128Value % Pow10(d.scale) >= TWO126)
    ensures d.IsWide() && d.s128Value > 0 && d.s128Value % Pow10(d.scale) >= TWO126 ==> d.scale == 38
  {
    if !d.IsWide() {
      if d.value >= 0 {
        NarrowUnsignedRound(d.value, d.scale);
      }
    } else if d.s128Value > 0 {
      WideUnsignedRound(d.s128Value, d.scale);
    }
  }

  lemma NarrowUnsignedRound(v: int, s: nat)
    requires SInt64.Holds(v) && 0 <= v && s <= 18
    ensures Decompose(SInt64, v, s).ToSIntRound()
         == if v == 0 then 0 else Least(RoundHalfAway(v, s), UInt64.Max())
  {
    NarrowRound(v, s);
    if v == 0 {
      RoundHalfUpUnique(0, Pow10(s), 0);
    }
  }

  lemma WideUnsignedRound(v: int, s: nat)
    requires SInt128.Holds(v) && v > 0 && s <= 38
    ensures var r, exact := Decompose(SInt128, v, s).ToSIntRoundPositive(), RoundHalfAway(v, s);
            if v % Pow10(s) >= TWO126 then s == 38 && r <= 1 && r < exact else r == exact
  {
    RoundByFraction(v, s);
    WideFraction(v, s);
    QuotientInRange(SInt128, v, s);
    DoubledFraction(Pow10(s), v / Pow10(s), v % Pow10(s));
  }

  lemma DoubledFraction(d: int, q: int, f: int)
    requires 0 <= f < d <= Pow10(38) && (f != 0 ==> SInt128.Holds(q + 1))
    ensures Decomposed(SInt128, d, q, f).ToSIntRoundPositive()
         == if f >= TWO126 || 2 * f < d then q else q + 1
    ensures f >= TWO126 ==> 2 * f >= d
  {
    Pow10Constants();
  }

  lemma WideFraction(v: int, s: nat)
    requires SInt128.Holds(v) && s <= 38
    ensures Pow10(s) <= Pow10(38)
    ensures v > 0 ==> TMod(v, Pow10(s)) == v % Pow10(s) && TDiv(v, Pow10(s)) == v / Pow10(s)
    ensures v % Pow10(s) >= TWO126 ==> s == 38
    ensures s == 38 && v > 0 ==> v / Pow10(s) <= 1
  {
    Pow10Constants();
    Pow10Mono(s, 38);
    if s < 38 {
      Pow10Mono(s, 37);
    }
  }

  // 0.9 at scale 38 is such a value: it comes out as 0 instead of 1.
  lemma UnsignedRoundLosesHalf()
    ensures var d := Decimal(0, 90_000_000_000_000_000_000_000_000_000_000_000_000, 38, 38);
            ToUInt64Round(d) == 0 && RoundHalfAway(d.Unscaled(), d.scale) == 1
  {
    var v := 90_000_000_000_000_000_000_000_000_000_000_000_000;
    Pow10Constants();
    RoundByFraction(v, 38);
    TDivModUnique(v, Pow10(38), 0, v);
  }
}
