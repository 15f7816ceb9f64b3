/** Comparison of decimals of any mix of widths and scales
    (datatypes/mcs_decimal.cpp, datatypes/mcs_decimal.h). */
module DecimalCompare {
  import opened MachineInts
  import opened Decimals

  /** Which of two numbers is larger: 1, -1 or 0. */
  function Order(a: int, b: int): (r: int)
  {
    if a > b then 1 else if a < b then -1 else 0
  }

  /** The order of the rationals v1/10^s1 and v2/10^s2, by cross multiplication. */
  function RationalOrder(v1: int, s1: nat, v2: int, s2: nat): (r: int)
  {
    Order(v1 * Pow10(s2), v2 * Pow10(s1))
  }

  // ---------- the code ----------

  // Quotients first; equal quotients compare their remainders at the larger scale. t is the
  // type the products are computed in: 128 bits in Decimal::compare, 64 bits in decimalComp.
  function Compare(t: IntType, v1: int, s1: nat, v2: int, s2: nat): (r: int)
    requires s1 <= 38 && s2 <= 38
  {
    var divisorL, divisorR := ScaleDivisor(s1), ScaleDivisor(s2);
    var q1, r1 := TDiv(v1, divisorL), TMod(v1, divisorL);
    var q2, r2 := TDiv(v2, divisorR), TMod(v2, divisorR);
    if q1 > q2 then 1
    else if q1 < q2 then -1
    else if s1 < s2 then Order(t.Wrap(r1 * ScaleDivisor(s2 - s1)), r2)
    else Order(r1, t.Wrap(r2 * ScaleDivisor(s1 - s2)))
  }

  datatype CmpOp = EqualTo | Greater | GreaterEqual {
    predicate Apply(a: int, b: int)
    {
      match this
      case EqualTo => a == b
      case Greater => a > b
      case GreaterEqual => a >= b
    }
  }

  // cmpOperatorTemplate: four width combinations, with a shortcut for equal scales.
  predicate CmpOperator(op: CmpOp, l: Decimal, r: Decimal)
    requires l.Valid() && r.Valid()
  {
    if l.precision > INT64MAXPRECISION && r.precision > INT64MAXPRECISION then
      if l.scale == r.scale then op.Apply(l.s128Value, r.s128Value)
      else op.Apply(Compare(SInt128, l.s128Value, l.scale, r.s128Value, r.scale), 0)
    else if l.precision > INT64MAXPRECISION && r.precision <= INT64MAXPRECISION then
      if l.scale == r.scale then op.Apply(l.s128Value, r.value)
      else op.Apply(Compare(SInt128, l.s128Value, l.scale, r.value, r.scale), 0)
    else if l.precision <= INT64MAXPRECISION && r.precision > INT64MAXPRECISION then
      if l.scale == r.scale then op.Apply(l.value, r.s128Value)
      else op.Apply(Compare(SInt128, l.value, l.scale, r.s128Value, r.scale), 0)
    else
      if l.scale == r.scale then op.Apply(l.value, r.value)
      else op.Apply(Compare(SInt64, l.value, l.scale, r.value, r.scale), 0)
  }

  predicate Eq(l: Decimal, r: Decimal) requires l.Valid() && r.Valid() { CmpOperator(EqualTo, l, r) }
  predicate Gt(l: Decimal, r: Decimal) requires l.Valid() && r.Valid() { CmpOperator(Greater, l, r) }
  predicate Ge(l: Decimal, r: Decimal) requires l.Valid() && r.Valid() { CmpOperator(GreaterEqual, l, r) }
  predicate Lt(l: Decimal, r: Decimal) requires l.Valid() && r.Valid() { !Ge(l, r) }
  predicate Le(l: Decimal, r: Decimal) requires l.Valid() && r.Valid() { !Gt(l, r) }
  predicate Ne(l: Decimal, r: Decimal) requires l.Valid() && r.Valid() { !Eq(l, r) }

  // ---------- quotients decide ----------

  // A larger truncated quotient means a larger rational, whatever the signs.
  lemma LargerQuotient(v1: int, d1: int, v2: int, d2: int)
    requires 0 < d1 && 0 < d2 && TDiv(v1, d1) > TDiv(v2, d2)
    ensures v1 * d2 > v2 * d1
  {
    TDivMod(v1, d1);
    TDivMod(v2, d2);
    var q1, q2 := TDiv(v1, d1), TDiv(v2, d2);
    if q1 >= 1 {
      MulMono(q2 + 1, q1, d2);
      Distribute(q2, 1, d2);
      Separated(v1, d1, v2, d2, q1);
    } else {
      MulMono(q2, q1 - 1, d1);
      Distribute(q1, 1, d1);
      SignRules(q2, d1);
      SignRules(q2, d2);
      SignRules(v1, d2);
      SignRules(v2, d1);
      Separated(-v2, d2, -v1, d1, -q2);
    }
  }

  // q separates the two rationals.
  lemma Separated(v1: int, d1: int, v2: int, d2: int, q: int)
    requires 0 < d1 && 0 < d2 && q * d1 <= v1 && v2 < q * d2
    ensures v1 * d2 > v2 * d1
  {
    MulMono(q * d1, v1, d2);
    MulMono(v2 + 1, q * d2, d1);
    Assoc(q, d1, d2);
    Assoc(q, d2, d1);
    Distribute(v2, 1, d1);
  }

  // Equal quotients: the remainders decide, cross-multiplied like the values.
  lemma EqualQuotients(v1: int, d1: int, v2: int, d2: int)
    requires 0 < d1 && 0 < d2 && TDiv(v1, d1) == TDiv(v2, d2)
    ensures Order(v1 * d2, v2 * d1) == Order(TMod(v1, d1) * d2, TMod(v2, d2) * d1)
  {
    TDivMod(v1, d1);
    TDivMod(v2, d2);
    var q := TDiv(v1, d1);
    Distribute(q * d1, TMod(v1, d1), d2);
    Distribute(q * d2, TMod(v2, d2), d1);
    Assoc(q, d1, d2);
    Assoc(q, d2, d1);
  }

  // One divisor is a multiple of the other: equal quotients leave the remainders, rescaled to it.
  lemma RescaleLeft(v1: int, d1: int, v2: int, d2: int, m: int)
    requires 0 < d1 && 0 < d2 == m * d1 && TDiv(v1, d1) == TDiv(v2, d2)
    ensures Order(v1 * d2, v2 * d1) == Order(TMod(v1, d1) * m, TMod(v2, d2))
  {
    EqualQuotients(v1, d1, v2, d2);
    Assoc(TMod(v1, d1), m, d1);
    OrderScaled(TMod(v1, d1) * m, TMod(v2, d2), d1);
  }

  lemma RescaleRight(v1: int, d1: int, v2: int, d2: int, m: int)
    requires 0 < d2 && 0 < d1 == m * d2 && TDiv(v1, d1) == TDiv(v2, d2)
    ensures Order(v1 * d2, v2 * d1) == Order(TMod(v1, d1), TMod(v2, d2) * m)
  {
    EqualQuotients(v1, d1, v2, d2);
    Assoc(TMod(v2, d2), m, d2);
    OrderScaled(TMod(v1, d1), TMod(v2, d2) * m, d2);
  }

  lemma OrderScaled(a: int, b: int, k: int)
    requires 0 < k
    ensures Order(a * k, b * k) == Order(a, b)
  {
    Distribute(a, b, k);
    if a > b {
      MulMono(1, a - b, k);
    } else if a < b {
      MulMono(a - b, -1, k);
    }
  }

  // Rescaling a remainder to a larger scale stays below that scale's power of ten, so it
  // never overflows the type.
  lemma RescaledRemainderFits(t: IntType, v: int, s: nat, s': nat)
    requires s <= s' && s' <= (if t == SInt64 then 18 else 38) && t in {SInt64, SInt128}
    ensures t.Wrap(TMod(v, Pow10(s)) * Pow10(s' - s)) == TMod(v, Pow10(s)) * Pow10(s' - s)
  {
    TDivMod(v, Pow10(s));
    Pow10Add(s, s' - s);
    Rescaled(TMod(v, Pow10(s)), Pow10(s), Pow10(s' - s));
    BelowScale(t, TMod(v, Pow10(s)) * Pow10(s' - s), s');
  }

  lemma Rescaled(r: int, d: int, m: int)
    requires -d < r < d && 0 < m
    ensures -(d * m) <= r * m <= d * m
  {
    MulMono(r, d, m);
    MulMono(-d, r, m);
    SignRules(d, m);
  }

  lemma BelowScale(t: IntType, x: int, s: nat)
    requires t in {SInt64, SInt128} && s <= (if t == SInt64 then 18 else 38) && -Pow10(s) <= x <= Pow10(s)
    ensures t.Wrap(x) == x
  {
    Pow10Constants();
    Pow10Mono(s, if t == SInt64 then 18 else 38);
  }

  // The code's comparison is the order of the rationals.
  lemma CompareIsRationalOrder(t: IntType, v1: int, s1: nat, v2: int, s2: nat)
    requires t in {SInt64, SInt128}
    requires s1 <= (if t == SInt64 then 18 else 38) && s2 <= (if t == SInt64 then 18 else 38)
    ensures Compare(t, v1, s1, v2, s2) == RationalOrder(v1, s1, v2, s2)
  {
    var d1, d2 := Pow10(s1), Pow10(s2);
    if TDiv(v1, d1) > TDiv(v2, d2) {
      LargerQuotient(v1, d1, v2, d2);
    } else if TDiv(v1, d1) < TDiv(v2, d2) {
      LargerQuotient(v2, d2, v1, d1);
    } else if s1 < s2 {
      RescaledRemainderFits(t, v1, s1, s2);
      Pow10Add(s2 - s1, s1);
      RescaleLeft(v1, d1, v2, d2, Pow10(s2 - s1));
    } else {
      RescaledRemainderFits(t, v2, s2, s1);
      Pow10Add(s1 - s2, s2);
      RescaleRight(v1, d1, v2, d2, Pow10(s1 - s2));
    }
  }

  // ---------- all six operators ----------

  function DecimalOrder(l: Decimal, r: Decimal): (o: int)
    requires l.Valid() && r.Valid()
  {
    RationalOrder(l.Unscaled(), l.scale, r.Unscaled(), r.scale)
  }

  lemma TemplateAgrees(op: CmpOp, l: Decimal, r: Decimal)
    requires l.Valid() && r.Valid()
    ensures CmpOperator(op, l, r) == op.Apply(DecimalOrder(l, r), 0)
  {
    if l.scale == r.scale {
      OrderScaled(l.Unscaled(), r.Unscaled(), Pow10(l.scale));
    } else {
      var t := if l.IsWide() || r.IsWide() then SInt128 else SInt64;
      CompareIsRationalOrder(t, l.Unscaled(), l.scale, r.Unscaled(), r.scale);
    }
  }

  // For every mix of widths and scales each operator is the comparison of the rationals.
  lemma OperatorsAgree(l: Decimal, r: Decimal)
    requires l.Valid() && r.Valid()
    ensures var a, b := l.Unscaled() * Pow10(r.scale), r.Unscaled() * Pow10(l.scale);
            && Eq(l, r) == (a == b) && Ne(l, r) == (a != b)
            && Gt(l, r) == (a > b) && Le(l, r) == (a <= b)
            && Ge(l, r) == (a >= b) && Lt(l, r) == (a < b)
  {
    TemplateAgrees(EqualTo, l, r);
    TemplateAgrees(Greater, l, r);
    TemplateAgrees(GreaterEqual, l, r);
  }

  // The order is total ...
  lemma Total(l: Decimal, r: Decimal)
    requires l.Valid() && r.Valid()
    ensures Le(l, r) || Le(r, l)
    ensures Le(l, r) && Le(r, l) <==> Eq(l, r)
    ensures Lt(l, r) <==> Gt(r, l)
  {
    OperatorsAgree(l, r);
    OperatorsAgree(r, l);
  }

  // ... and transitive, also through operands of a different width and scale.
  lemma Transitive(a: Decimal, b: Decimal, c: Decimal)
    requires a.Valid() && b.Valid() && c.Valid() && Le(a, b) && Le(b, c)
    ensures Le(a, c)
    ensures Lt(a, b) || Lt(b, c) ==> Lt(a, c)
  {
    OperatorsAgree(a, b);
    OperatorsAgree(b, c);
    OperatorsAgree(a, c);
    CrossTransitive(a.Unscaled(), Pow10(a.scale), b.Unscaled(), Pow10(b.scale), c.Unscaled(), Pow10(c.scale));
  }

  lemma CrossTransitive(a: int, da: int, b: int, db: int, c: int, dc: int)
    requires 0 < da && 0 < db && 0 < dc && a * db <= b * da && b * dc <= c * db
    ensures a * dc <= c * da
    ensures a * db < b * da || b * dc < c * db ==> a * dc < c * da
  {
    var k := (c * da - a * dc) * db;
    assert k == (c * db - b * dc) * da + (b * da - a * db) * dc by {
      CrossIdentity(a, da, b, db, c, dc);
    }
    assert 0 <= (c * db - b * dc) * da && 0 <= (b * da - a * db) * dc;
    if a * db < b * da {
      MulMono(1, b * da - a * db, dc);
    }
    if b * dc < c * db {
      MulMono(1, c * db - b * dc, da);
    }
    if c * da - a * dc <= 0 {
      MulMono(c * da - a * dc, 0, db);
      if c * da - a * dc < 0 {
        MulMono(c * da - a * dc, -1, db);
      }
    }
  }

  lemma CrossIdentity(a: int, da: int, b: int, db: int, c: int, dc: int)
    ensures (c * da - a * dc) * db == (c * db - b * dc) * da + (b * da - a * db) * dc
  {
    Distribute(c * da, a * dc, db);
    Distribute(c * db, b * dc, da);
    Distribute(b * da, a * db, dc);
    Assoc(c, da, db);
    Assoc(c, db, da);
    Assoc(a, dc, db);
    Assoc(a, db, dc);
    Assoc(b, dc, da);
    Assoc(b, da, dc);
  }
}
