/** The decimal type: representation, tables and construction from text
    (datatypes/mcs_decimal.h, datatypes/mcs_decimal.cpp). */
module Decimals {
  import opened MachineInts
  import opened Digits
  import opened DataConditions
  import opened LiteralGrammar
  import opened NumericLiterals

  const INT64MAXPRECISION := 18
  const INT128MAXPRECISION := 38
  const NULL_VALUE: int := -TWO127
  const EMPTY_VALUE: int := -TWO127 + 1

  const MCS_POW_10: seq<int> := [
    1,
    10,
    100,
    1_000,
    10_000,
    100_000,
    1_000_000,
    10_000_000,
    100_000_000,
    1_000_000_000,
    10_000_000_000,
    100_000_000_000,
    1_000_000_000_000,
    10_000_000_000_000,
    100_000_000_000_000,
    1_000_000_000_000_000,
    10_000_000_000_000_000,
    100_000_000_000_000_000,
    1_000_000_000_000_000_000,
    10_000_000_000_000_000_000
  ]
  const MCS_POW_10_128: seq<int> := [
    10_000_000_000_000_000_000,
    100_000_000_000_000_000_000,
    1_000_000_000_000_000_000_000,
    10_000_000_000_000_000_000_000,
    100_000_000_000_000_000_000_000,
    1_000_000_000_000_000_000_000_000,
    10_000_000_000_000_000_000_000_000,
    100_000_000_000_000_000_000_000_000,
    1_000_000_000_000_000_000_000_000_000,
    10_000_000_000_000_000_000_000_000_000,
    100_000_000_000_000_000_000_000_000_000,
    1_000_000_000_000_000_000_000_000_000_000,
    10_000_000_000_000_000_000_000_000_000_000,
    100_000_000_000_000_000_000_000_000_000_000,
    1_000_000_000_000_000_000_000_000_000_000_000,
    10_000_000_000_000_000_000_000_000_000_000_000,
    100_000_000_000_000_000_000_000_000_000_000_000,
    1_000_000_000_000_000_000_000_000_000_000_000_000,
    10_000_000_000_000_000_000_000_000_000_000_000_000,
    100_000_000_000_000_000_000_000_000_000_000_000_000
  ]

  lemma NarrowStep(i: nat)
    requires 0 < i < 20
    ensures |MCS_POW_10| == 20 && MCS_POW_10[i] == 10 * MCS_POW_10[i - 1]
  {
    assert i == 1 || i == 2 || i == 3 || i == 4 || i == 5 || i == 6 || i == 7 || i == 8 || i == 9 || i == 10
           || i == 11 || i == 12 || i == 13 || i == 14 || i == 15 || i == 16 || i == 17 || i == 18 || i == 19;
  }

  lemma WideStep(i: nat)
    requires 0 < i < 20
    ensures |MCS_POW_10_128| == 20 && MCS_POW_10_128[i] == 10 * MCS_POW_10_128[i - 1]
  {
    assert i == 1 || i == 2 || i == 3 || i == 4 || i == 5 || i == 6 || i == 7 || i == 8 || i == 9 || i == 10
           || i == 11 || i == 12 || i == 13 || i == 14 || i == 15 || i == 16 || i == 17 || i == 18 || i == 19;
  }

  lemma {:induction false} NarrowTable(i: nat)
    requires i < 20
    ensures |MCS_POW_10| == 20 && MCS_POW_10[i] == Pow10(i)
  {
    if i > 0 {
      NarrowTable(i - 1);
      NarrowStep(i);
    }
  }

  lemma {:induction false} WideTable(i: nat)
    requires i < 20
    ensures |MCS_POW_10_128| == 20 && MCS_POW_10_128[i] == Pow10(i + 19)
  {
    if i > 0 {
      WideTable(i - 1);
      WideStep(i);
    } else {
      Pow10Constants();
    }
  }

  /** Table lookup behind every rescaling. */
  function ScaleDivisor(scale: nat): (d: int)
    requires scale <= 38
    ensures d == Pow10(scale)
  {
    if scale < 19 then
      NarrowTable(scale);
      MCS_POW_10[scale]
    else
      WideTable(scale - 19);
      MCS_POW_10_128[scale - 19]
  }

  datatype Decimal = Decimal(value: int, s128Value: int, scale: int, precision: int) {

    predicate IsWide()
    {
      INT64MAXPRECISION < precision <= INT128MAXPRECISION
    }

    /** The unscaled integer of the representation in use. */
    function Unscaled(): (v: int)
    {
      if IsWide() then s128Value else value
    }

    /** Both words are machine integers and the scale is one the representation supports. */
    predicate Valid()
    {
      && SInt64.Holds(value) && SInt128.Holds(s128Value)
      && 0 <= precision <= INT128MAXPRECISION
      && 0 <= scale <= if IsWide() then 38 else 18
    }
  }

  /** The largest number of p digits, from the table of the representation in use. */
  function MaxNumber(p: nat): (m: int)
    requires p <= INT128MAXPRECISION
    ensures m == Pow10(p) - 1 && 0 <= m < if p <= INT64MAXPRECISION then SInt64.Max() else SInt128.Max()
  {
    Pow10Constants();
    Pow10Mono(p, if p <= 18 then 18 else 38);
    if p > INT64MAXPRECISION then
      WideTable(p - 19);
      MCS_POW_10_128[p - 19] - 1
    else
      NarrowTable(p);
      MCS_POW_10[p] - 1
  }

  function Signed(negative: bool, n: int): int {
    if negative then -n else n
  }

  /** The number a literal denotes, rounded to s fractional digits and clamped to p digits. */
  function Clamped(l: Literal, s: nat, p: nat): int
    requires l.Valid()
  {
    Signed(l.negative, Least(Rounded(l, s), Pow10(p) - 1))
  }

  /** What reading a text raises. Out of range: the clamp bites, or the exponent of a nonzero
      literal does not fit 64 bits. */
  function Conditions(parsed: Parsed, s: nat, p: nat): set<Code>
    requires parsed.literal.Valid()
  {
    (if parsed.syntaxError then {InvalidCharacterValueForCast} else {}) + RangeCondition(parsed.literal, s, p)
  }

  function RangeCondition(l: Literal, s: nat, p: nat): set<Code>
    requires l.Valid()
  {
    OutOfRange(Rounded(l, s) > Pow10(p) - 1 || (Coefficient(l) != 0 && !ExponentFits(l)))
  }

  // (literal::scale_t)scale
  function CastScale(s: int): (r: nat)
    ensures r < TWO32 && (0 <= s < TWO32 ==> r == s) && (-TWO32 <= s < 0 ==> r == s + TWO32)
  {
    s % TWO32
  }

  // Conversion to a signed type followed by the clamp to the precision's range.
  method ConvertAndClamp(l: Literal, t: IntType, s: nat, limit: int, convError: DataCondition) returns (v: int)
    requires t in {SInt64, SInt128} && 0 <= limit < t.Max() && s < TWO32
    requires l.Valid() && |l.integral| + |l.fraction| < TWO62
    modifies convError
    ensures v == Signed(l.negative, Least(Rounded(l, s), limit))
    ensures convError.mError == old(convError.mError)
              + OutOfRange(Rounded(l, s) > limit || (Coefficient(l) != 0 && !ExponentFits(l)))
  {
    var conv := new SignedNumericLiteral(l);
    conv.Normalize();
    v := conv.ToPackedSDecimal(t, s, convError);
    v := convError.AdjustSIntXRange(v, limit);
  }

  /** Every text, syntactically valid or not, gives sign * min(rounded magnitude, 10^p - 1) of
      what was parsed, and raises exactly the conditions of what was parsed. The scale is a signed byte
      that is cast to 32 bits, so a negative one becomes a large one. */
  method FromString(text: string, convError: DataCondition, s: int, p: int) returns (d: Decimal)
    requires |text| < TWO62 && -128 <= s <= 127 && 0 <= p <= INT128MAXPRECISION
    modifies convError
    ensures d.scale == s && d.precision == p
    ensures d.Unscaled() == Clamped(Parse(text).literal, CastScale(s), p)
    ensures convError.mError == old(convError.mError) + Conditions(Parse(text), CastScale(s), p)
    ensures SInt64.Holds(d.value) && SInt128.Holds(d.s128Value)
  {
    var parsed := Parse(text);
    if parsed.syntaxError {
      convError.Raise(InvalidCharacterValueForCast);
    }
    d := FromLiteral(parsed.literal, convError, s, p);
  }

  // The same for a parsed literal.
  method FromLiteral(l: Literal, convError: DataCondition, s: int, p: int) returns (d: Decimal)
    requires l.Valid() && |l.integral| + |l.fraction| < TWO62 && -128 <= s <= 127 && 0 <= p <= INT128MAXPRECISION
    modifies convError
    ensures d.scale == s && d.precision == p
    ensures d.Unscaled() == Clamped(l, CastScale(s), p)
    ensures convError.mError == old(convError.mError) + RangeCondition(l, CastScale(s), p)
    ensures SInt64.Holds(d.value) && SInt128.Holds(d.s128Value)
  {
    if INT64MAXPRECISION < p <= INT128MAXPRECISION {
      var v := ConvertAndClamp(l, SInt128, CastScale(s), MaxNumber(p), convError);
      d := Decimal(0, v, s, p);
    } else {
      var v := ConvertAndClamp(l, SInt64, CastScale(s), MaxNumber(p), convError);
      d := Decimal(v, 0, s, p);
    }
  }
}
