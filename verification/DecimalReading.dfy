/** What reading a DECIMAL literal gives, in terms of the literal as it is written
    (datatypes/mcs_decimal.cpp, datatypes/numericliteral.h). */
module DecimalReading {
  import opened MachineInts
  import opened Digits
  import opened DataConditions
  import opened LiteralGrammar
  import opened NumericLiterals
  import opened Decimals

  /** The digits of a literal, without the period. */
  function AllOf(e: Exact): (s: string) {
    match e
    case Integral(i) => i
    case IntegralPeriod(i, f) => i + f
    case FractionAlone(f) => f
  }

  function FractionDigits(e: Exact): (n: nat) {
    match e
    case Integral(_) => 0
    case IntegralPeriod(_, f) => |f|
    case FractionAlone(f) => |f|
  }

  lemma DigitsOf(d: Derivation)
    requires d.WellFormed()
    ensures AllDigits(AllOf(d.exact)) && d.ToLiteral().Valid()
    ensures Coefficient(d.ToLiteral()) == Val(AllOf(d.exact)) && |d.ToLiteral().fraction| == FractionDigits(d.exact)
  {
    var l := d.ToLiteral();
    ValAppend(l.integral, l.fraction);
    assert l.integral + l.fraction == AllOf(d.exact);
  }

  // n is num/den, rounded half up.
  predicate Nearest(n: int, num: int, den: int) {
    (2 * n - 1) * den <= 2 * num < (2 * n + 1) * den
  }

  // The same, cut off at a limit.
  predicate NearestUpTo(n: int, num: int, den: int, limit: int) {
    && 0 <= n <= limit && (2 * n - 1) * den <= 2 * num
    && (n < limit ==> 2 * num < (2 * n + 1) * den)
  }

  // c * 10^a / 10^b, rounded.
  lemma RoundScaledIs(c: nat, a: int, b: int, r: int, num: int, den: int)
    requires 0 <= a && 0 <= b && r == RoundScaled(c, a - b) && num == c * Pow10(a) && den == Pow10(b)
    ensures Nearest(r, num, den)
  {
    if a >= b {
      Pow10Add(a - b, b);
      ScaledUp(c, Pow10(a - b), Pow10(a), r, num, den);
    } else {
      Pow10Add(b - a, a);
      Enlarged(c, Pow10(b - a), Pow10(a), r, num, den);
    }
  }

  lemma ScaledUp(c: int, m: int, q: int, r: int, num: int, den: int)
    requires 0 < den && q == m * den && r == c * m && num == c * q
    ensures Nearest(r, num, den)
  {
    Assoc(c, m, den);
    Distribute(2 * r, 1, den);
    Assoc(2, r, den);
  }

  lemma Enlarged(c: int, m: int, p: int, r: int, num: int, den: int)
    requires 0 < m && 0 < p && den == m * p && num == c * p && 2 * c - m < 2 * (r * m) <= 2 * c + m
    ensures Nearest(r, num, den)
  {
    Distribute(2 * r, 1, m);
    Assoc(2, r, m);
    MulMono((2 * r - 1) * m, 2 * c, p);
    MulMono(2 * c + 1, (2 * r + 1) * m, p);
    Distribute(2 * c, 1, p);
    Assoc(2 * r - 1, m, p);
    Assoc(2 * r + 1, m, p);
    Assoc(2, c, p);
  }

  lemma CutOff(r: int, num: int, den: int, limit: int)
    requires 0 < den && 0 <= r && 0 <= limit && Nearest(r, num, den)
    ensures NearestUpTo(Least(r, limit), num, den, limit)
    ensures r > limit <==> 2 * num >= (2 * limit + 1) * den
  {
    if r > limit {
      MulMono(2 * limit + 1, 2 * r - 1, den);
      MulMono(2 * limit - 1, 2 * limit + 1, den);
    } else {
      MulMono(2 * r + 1, 2 * limit + 1, den);
    }
  }

  // The magnitude of the literal at scale s is num/den: digits times 10^(e + s) over 10^f, or digits times
  // 10^s over 10^(f + e) when the exponent is negative.
  ghost predicate Denotes(d: Derivation, s: nat, num: int, den: int)
    requires d.WellFormed()
  {
    && AllDigits(AllOf(d.exact))
    && var c, f := Val(AllOf(d.exact)), FractionDigits(d.exact);
       match d.exponent
       case NoExponent => num == c * Pow10(s) && den == Pow10(f)
       case Exponent(_, sign, digits) =>
         if sign == Minus then num == c * Pow10(s) && den == Pow10(f + Val(digits))
         else num == c * Pow10(Val(digits) + s) && den == Pow10(f)
  }

  // The exponent does not fit a signed 64-bit integer.
  ghost predicate ExponentTooLarge(e: Exponent)
    requires e.WellFormed()
  {
    e.Exponent? && Val(e.digits) > if e.sign == Minus then 0x8000_0000_0000_0000 else 0x7fff_ffff_ffff_ffff
  }

  /** v has the sign of the literal and the magnitude num/den, rounded half up and cut off at the largest
      number of p digits. */
  ghost predicate ReadsAs(d: Derivation, v: int, num: int, den: int, p: nat) {
    && NearestUpTo(Abs(v), num, den, Pow10(p) - 1)
    && (d.sign == Minus ==> v <= 0) && (d.sign != Minus ==> v >= 0)
  }

  /** Raised when it is cut off, or when the exponent of a nonzero literal is too large. */
  ghost function Raised(d: Derivation, num: int, den: int, p: nat): (c: set<Code>)
    requires d.WellFormed()
  {
    if 2 * num >= (2 * Pow10(p) - 1) * den || (num != 0 && ExponentTooLarge(d.exponent))
    then {NumericValueOutOfRange} else {}
  }

  lemma Powers(d: Derivation, s: nat) returns (c: nat, a: int, b: int)
    requires d.WellFormed()
    ensures 0 <= a && 0 <= b && AllDigits(AllOf(d.exact)) && d.ToLiteral().Valid()
    ensures && c == Val(AllOf(d.exact))
            && Denotes(d, s, c * Pow10(a), Pow10(b))
            && Rounded(d.ToLiteral(), s) == RoundScaled(c, a - b)
            && (Coefficient(d.ToLiteral()) == 0 <==> c == 0)
            && (ExponentFits(d.ToLiteral()) <==> !ExponentTooLarge(d.exponent))
  {
    DigitsOf(d);
    c := Val(AllOf(d.exact));
    var f := FractionDigits(d.exact);
    match d.exponent
    case NoExponent => a, b := s, f;
    case Exponent(_, sign, digits) =>
      if sign == Minus {
        a, b := s, f + Val(digits);
      } else {
        a, b := Val(digits) + s, f;
      }
  }

  // The value of every literal, scale and precision, and the condition it raises.
  lemma ClampedIsNearest(d: Derivation, s: nat, p: nat) returns (num: int, den: int)
    requires d.WellFormed()
    ensures d.ToLiteral().Valid() && Denotes(d, s, num, den) && 0 < den
    ensures ReadsAs(d, Clamped(d.ToLiteral(), s, p), num, den, p)
    ensures RangeCondition(d.ToLiteral(), s, p) == Raised(d, num, den, p)
  {
    var c, a, b := Powers(d, s);
    num, den := c * Pow10(a), Pow10(b);
    var r := RoundScaled(c, a - b);
    RoundScaledIs(c, a, b, r, num, den);
    NonzeroScaled(c, Pow10(a));
    ClampedFrom(d, s, p, r, num, den);
  }

  lemma ClampedFrom(d: Derivation, s: nat, p: nat, r: nat, num: int, den: int)
    requires d.WellFormed() && d.ToLiteral().Valid() && Rounded(d.ToLiteral(), s) == r
    requires 0 < den && Nearest(r, num, den) && (Coefficient(d.ToLiteral()) == 0 <==> num == 0)
    requires ExponentFits(d.ToLiteral()) <==> !ExponentTooLarge(d.exponent)
    ensures ReadsAs(d, Clamped(d.ToLiteral(), s, p), num, den, p)
    ensures RangeCondition(d.ToLiteral(), s, p) == Raised(d, num, den, p)
  {
    CutOff(r, num, den, Pow10(p) - 1);
  }

  lemma NonzeroScaled(c: int, p: int)
    requires 0 < p
    ensures c * p == 0 <==> c == 0
  {
    if c != 0 {
      MultipleIsLarge(c, p);
    }
  }

  /** A literal, after any spaces and before anything that does not continue it, read as a DECIMAL: the
      number it denotes at the scale, rounded half away from zero and cut off at the largest number of p
      digits, in the word of the precision. The scale is a signed byte, cast to 32 bits. */
  method ReadLiteral(spaces: nat, d: Derivation, rest: string, s: int, p: int, error: DataCondition)
    returns (r: Decimal, ghost num: int, ghost den: int)
    requires d.WellFormed() && d.StopsAt(rest) && |Spaces(spaces) + d.Text() + rest| < TWO62
    requires -128 <= s <= 127 && 0 <= p <= 38
    modifies error
    ensures r.scale == s && r.precision == p
    ensures 0 < den && Denotes(d, if s < 0 then s + 0x1_0000_0000 else s, num, den)
    ensures ReadsAs(d, if p > 18 then r.s128Value else r.value, num, den, p)
    ensures error.mError == old(error.mError) + Raised(d, num, den, p)
  {
    var text := Spaces(spaces) + d.Text() + rest;
    ParseComplete(spaces, d, rest);
    num, den := ClampedIsNearest(d, CastScale(s), p);
    r := FromParsed(text, d.ToLiteral(), rest, s, p, error);
  }

  method FromParsed(text: string, l: Literal, rest: string, s: int, p: int, error: DataCondition)
    returns (r: Decimal)
    requires |text| < TWO62 && l.Valid() && Parse(text) == Parsed(l, rest, false)
    requires -128 <= s <= 127 && 0 <= p <= 38
    modifies error
    ensures r.scale == s && r.precision == p
    ensures (if p > 18 then r.s128Value else r.value) == Clamped(l, CastScale(s), p)
    ensures error.mError == old(error.mError) + RangeCondition(l, CastScale(s), p)
  {
    r := FromString(text, error, s, p);
  }
}
