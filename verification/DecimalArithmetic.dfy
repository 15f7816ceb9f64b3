/** Checked 128-bit decimal arithmetic and the integer MOD operator
    (datatypes/mcs_decimal.cpp, datatypes/mcs_decimal.h). */
module DecimalArithmetic {
  import opened MachineInts
  import opened PowersOfTwo
  import opened Digits
  import opened Decimals
  import opened DecimalRounding
  import opened Float128Quotient

  // A result, the overflow exception, or a division the language leaves undefined: by zero, or of the
  // smallest value by -1.
  datatype Checked = Value(v: int) | Overflow | Undefined

  // ---------- overflow checks ----------

  // MultiplicationOverflowCheck: multiply with wrap-around, divide back, compare.
  method CheckedMultiply(t: IntType, x: int, y: int) returns (r: Checked)
    requires t in {SInt64, SInt128} && t.Holds(x) && t.Holds(y)
    ensures r == if y == 0 || (x == t.Min() && y == -1) then Undefined
                 else if t.Holds(x * y) then Value(x * y) else Overflow
  {
    var z := t.Wrap(x * y);
    if y == 0 || (z == t.Min() && y == -1) {
      return Undefined;
    }
    WrapAndDivide(t, x, y);
    if TDiv(z, y) != x {
      return Overflow;
    }
    r := Value(z);
  }

  // Dividing the wrapped product gives x back exactly when nothing was lost.
  lemma WrapAndDivide(t: IntType, x: int, y: int)
    requires t in {SInt64, SInt128} && t.Holds(x) && t.Holds(y) && y != 0
    ensures TDiv(t.Wrap(x * y), y) == x <==> t.Holds(x * y)
  {
    var p := x * y;
    var z := t.Wrap(p);
    if t.Holds(p) {
      TDivModUnique(p, y, x, 0);
    } else {
      TDivMod(z, y);
      NonzeroMultiple(p - z, t.Modulus());
    }
  }

  lemma NonzeroMultiple(x: int, m: int)
    requires 0 < m && x % m == 0 && x != 0
    ensures Abs(x) >= m
  {
    MultipleIsLarge(x / m, m);
  }

  predicate AdditionOverflows(t: IntType, x: int, y: int)
  {
    (y > 0 && x > t.Max() - y) || (y < 0 && x < t.Min() - y)
  }

  predicate SubtractionOverflows(t: IntType, x: int, y: int)
  {
    (y > 0 && x < t.Min() + y) || (y < 0 && x > t.Max() + y)
  }

  // Neither test overflows itself: its bound is computed inside the type.
  lemma ChecksStayInRange(t: IntType, y: int)
    requires t in {SInt64, SInt128} && t.Holds(y)
    ensures y > 0 ==> t.Holds(t.Max() - y) && t.Holds(t.Min() + y)
    ensures y < 0 ==> t.Holds(t.Min() - y) && t.Holds(t.Max() + y)
  {
  }

  // ---------- addition and subtraction ----------

  datatype AddOp = Plus | Minus {
    function Apply(x: int, y: int): (r: int)
    {
      if this == Plus then x + y else x - y
    }
    predicate Overflows(t: IntType, x: int, y: int)
    {
      if this == Plus then AdditionOverflows(t, x, y) else SubtractionOverflows(t, x, y)
    }
  }

  // ---------- scaling down ----------

  // (int128_t)(v / 10^k + 0.5) or - 0.5, in 128-bit floating point.
  function Down(v: int, k: nat): (r: int)
  {
    if v > 0 then Quotient(v, Pow10(k)) else -(Quotient(-v, Pow10(k)) as int)
  }

  // It rounds half away from zero as long as the operand has 113 bits, 112 when nothing is scaled off.
  lemma DownRounds(v: int, k: nat)
    requires k <= 38 && Abs(v) < if k == 0 then TWO112 else TWO113
    ensures Down(v, k) == RoundHalfAway(v, k)
  {
    var n: nat := if v > 0 then v else -v;
    QuotientRounds(n, k);
    DownIs(v, k, n);
    RoundIs(v, k, n);
  }

  lemma DownIs(v: int, k: nat, n: nat)
    requires n == if v > 0 then v else -v
    ensures Down(v, k) == if v > 0 then Quotient(n, Pow10(k)) as int else -(Quotient(n, Pow10(k)) as int)
  {
  }

  lemma RoundIs(v: int, k: nat, n: nat)
    requires n == if v > 0 then v else -v
    ensures RoundHalfAway(v, k)
         == if v > 0 then RoundHalfUp(n, Pow10(k)) as int else -(RoundHalfUp(n, Pow10(k)) as int)
  {
    RoundsToZero(n, Pow10(k));
  }

  // Half a unit and 2^-110 of the operand, for every operand.
  lemma DownError(v: int, k: nat)
    requires k <= 38
    ensures 2 * TWO113 * Abs(Down(v, k) * Pow10(k) - v) <= (TWO113 + 1) * Pow10(k) + 8 * Abs(v)
  {
    var n: nat := if v > 0 then v else -v;
    PowerFits(k);
    QuotientError(n, Pow10(k));
    DownIs(v, k, n);
    ErrorOf(v, Quotient(n, Pow10(k)), Pow10(k));
  }

  lemma PowerFits(k: nat)
    requires k <= 38
    ensures Pow10(k) < TWO127
  {
    Pow10Constants();
    Pow10Mono(k, 38);
  }

  // A magnitude and its sign are off alike.
  lemma ErrorOf(v: int, q: int, m: int)
    ensures Abs((if v > 0 then q else -q) * m - v) == Abs(q * m - Abs(v))
  {
    SignRules(q, m);
  }

  // The conversion leaves the type exactly when nothing is scaled off the largest 2^13 values.
  lemma DownInRange(v: int, k: nat)
    requires SInt128.Holds(v) && k <= 38
    ensures SInt128.Holds(Down(v, k)) <==> !(k == 0 && v >= TWO127 - 0x2000)
    ensures Down(v, k) == SInt128.Min() <==> k == 0 && v <= -(TWO127 - 0x2000)
  {
    if k > 0 {
      Pow10Mono(1, k);
      ScaledInRange(Abs(v), Pow10(k));
    } else if Abs(v) >= TWO127 - 0x2000 {
      TopRoundsUp(Abs(v));
    } else {
      BelowTop(Abs(v));
    }
  }

  lemma DownVanishes(v: int, k: nat)
    requires k <= 38
    ensures Down(v, k) == 0 <==> Abs(v) < VanishBelow(k)
    ensures k == 1 ==> (Down(v, k) == -1 <==> -14 <= v <= -5)
  {
    VanishesExactly(Abs(v), k);
    if k == 1 {
      GivesOne(Abs(v));
    }
  }

  /** An operand brought to the result scale: exactly to a larger one, by the quotient to a smaller one. */
  function Rescaled(d: Decimal, scale: nat, down: (int, nat) -> int): (v: int)
  {
    if scale < d.scale then down(d.Unscaled(), d.scale - scale) else d.Unscaled() * Pow10(scale - d.scale)
  }

  method Rescale(d: Decimal, scale: nat) returns (r: Checked)
    requires d.Valid() && scale <= 38
    ensures r == var v := Rescaled(d, scale, Down); if SInt128.Holds(v) then Value(v) else Overflow
  {
    r := Value(d.Unscaled());
    if scale > d.scale {
      var scaleMultiplier := ScaleDivisor(scale - d.scale);
      Pow10Constants();
      Pow10Mono(scale - d.scale, 38);
      r := CheckedMultiply(SInt128, d.Unscaled(), scaleMultiplier);
    } else if scale < d.scale {
      DownInRange(d.Unscaled(), d.scale - scale);
      r := Value(Down(d.Unscaled(), d.scale - scale));
    }
  }

  // addSubtractExecute: the exact sum or difference of the rescaled operands, or the exception exactly
  // when a rescaled operand or the result leaves 128 bits.
  method AddSubtract(l: Decimal, r: Decimal, resultScale: nat, op: AddOp) returns (result: Checked)
    requires l.Valid() && r.Valid() && resultScale <= 38
    ensures var x, y := Rescaled(l, resultScale, Down), Rescaled(r, resultScale, Down);
            && (op == Plus ==>
                  result == if SInt128.Holds(x) && SInt128.Holds(y) && SInt128.Holds(x + y)
                            then Value(x + y) else Overflow)
            && (op == Minus ==>
                  result == if SInt128.Holds(x) && SInt128.Holds(y) && SInt128.Holds(x - y)
                            then Value(x - y) else Overflow)
  {
    var lValue, rValue := l.Unscaled(), r.Unscaled();
    if resultScale == l.scale && resultScale == r.scale {
      if op.Overflows(SInt128, lValue, rValue) {
        return Overflow;
      }
      return Value(op.Apply(lValue, rValue));
    }
    var ls := Rescale(l, resultScale);
    if ls.Overflow? {
      return Overflow;
    }
    var rs := Rescale(r, resultScale);
    if rs.Overflow? {
      return Overflow;
    }
    if op.Overflows(SInt128, ls.v, rs.v) {
      return Overflow;
    }
    result := Value(op.Apply(ls.v, rs.v));
  }

  // What an operand loses by rescaling, at a scale that holds it and the result.
  function Loss(d: Decimal, resultScale: nat, scale: nat, down: (int, nat) -> int): (e: int)
    requires resultScale <= scale
  {
    Rescaled(d, resultScale, down) * Pow10(scale - resultScale) - Rescaled(d, scale, down)
  }

  // Sum and difference are off by the losses of the operands.
  lemma LossesAdd(l: Decimal, r: Decimal, resultScale: nat, op: AddOp, scale: nat, down: (int, nat) -> int)
    requires resultScale <= scale
    ensures op.Apply(Rescaled(l, resultScale, down), Rescaled(r, resultScale, down)) * Pow10(scale - resultScale)
            - op.Apply(Rescaled(l, scale, down), Rescaled(r, scale, down))
         == op.Apply(Loss(l, resultScale, scale, down), Loss(r, resultScale, scale, down))
  {
    Distribute(Rescaled(l, resultScale, down), Rescaled(r, resultScale, down), Pow10(scale - resultScale));
  }

  // Scaled by what is left, the error of the quotient is the loss.
  lemma LossIs(d: Decimal, resultScale: nat, scale: nat, down: (int, nat) -> int, t: int, bound: int)
    requires resultScale < d.scale <= scale && 0 < t
    requires var k := d.scale - resultScale; t * Abs(down(d.Unscaled(), k) * Pow10(k) - d.Unscaled()) <= bound
    ensures t * Abs(Loss(d, resultScale, scale, down)) <= bound * Pow10(scale - d.scale)
    ensures Pow10(scale - resultScale) == Pow10(d.scale - resultScale) * Pow10(scale - d.scale)
    ensures Rescaled(d, scale, down) == d.Unscaled() * Pow10(scale - d.scale)
  {
    var k := d.scale - resultScale;
    Pow10Add(k, scale - d.scale);
    ScaledLoss(down(d.Unscaled(), k), Pow10(k), d.Unscaled(), Pow10(scale - d.scale), t, bound);
  }

  lemma NoLoss(d: Decimal, resultScale: nat, scale: nat, down: (int, nat) -> int)
    requires d.scale <= resultScale <= scale
    ensures Loss(d, resultScale, scale, down) == 0
  {
    Pow10Add(resultScale - d.scale, scale - resultScale);
    Assoc(d.Unscaled(), Pow10(resultScale - d.scale), Pow10(scale - resultScale));
  }

  lemma ScaledLoss(q: int, p: int, v: int, m: int, t: int, bound: int)
    requires 0 < m && 0 < t && t * Abs(q * p - v) <= bound
    ensures t * Abs(q * (p * m) - v * m) <= bound * m
  {
    var e := q * p - v;
    Assoc(q, p, m);
    Distribute(q * p, v, m);
    AbsScaled(e, m);
    MulMono(t * Abs(e), bound, m);
    Assoc(t, Abs(e), m);
  }

  lemma AbsScaled(e: int, m: int)
    requires 0 < m
    ensures Abs(e * m) == Abs(e) * m
  {
    MulMono(0, Abs(e), m);
    SignRules(e, m);
  }

  predicate FewBits(d: Decimal, resultScale: nat) {
    d.scale <= resultScale || Abs(d.Unscaled()) < TWO113
  }

  // When the operands that are scaled down have 113 bits, the sum or difference is within one unit of the
  // exact one; it is exact when none is.
  lemma WithinOneUnit(l: Decimal, r: Decimal, resultScale: nat, op: AddOp, scale: nat)
    requires l.scale <= scale <= 38 && r.scale <= scale && resultScale <= scale
    requires FewBits(l, resultScale) && FewBits(r, resultScale)
    ensures var x, y := Rescaled(l, resultScale, Down), Rescaled(r, resultScale, Down);
            var unit := Pow10(scale - resultScale);
            var a, b := l.Unscaled() * Pow10(scale - l.scale), r.Unscaled() * Pow10(scale - r.scale);
            var error := if op == Plus then (x + y) * unit - (a + b) else (x - y) * unit - (a - b);
            Abs(error) <= unit && (l.scale <= resultScale && r.scale <= resultScale ==> error == 0)
  {
    LossesAdd(l, r, resultScale, op, scale, Down);
    HalfUnit(l, resultScale, scale);
    HalfUnit(r, resultScale, scale);
  }

  lemma HalfUnit(d: Decimal, resultScale: nat, scale: nat)
    requires d.scale <= scale <= 38 && resultScale <= scale && FewBits(d, resultScale)
    ensures 2 * Abs(Loss(d, resultScale, scale, Down)) <= Pow10(scale - resultScale)
    ensures d.scale <= resultScale ==> Loss(d, resultScale, scale, Down) == 0
  {
    if resultScale < d.scale {
      DownNearest(d.Unscaled(), d.scale - resultScale);
      LossIs(d, resultScale, scale, Down, 2, Pow10(d.scale - resultScale));
    } else {
      NoLoss(d, resultScale, scale, Down);
    }
  }

  // Half a unit on either side of r; at half a unit r is farther from zero.
  lemma HalfApart(v: int, r: int, p: nat)
    requires v >= 0 ==> (2 * r - 1) * p <= 2 * v < (2 * r + 1) * p
    requires v <= 0 ==> (2 * r - 1) * p < 2 * v <= (2 * r + 1) * p
    ensures 2 * Abs(r * p - v) <= p
    ensures 2 * Abs(r * p - v) == p ==> Abs(r) * p > Abs(v)
  {
    assert (2 * r - 1) * p == 2 * (r * p) - p && (2 * r + 1) * p == 2 * (r * p) + p;
    SignRules(r, p);
  }

  // Scaling down gives a nearest number, at a tie the one farther from zero.
  lemma DownNearest(v: int, k: nat)
    requires 1 <= k <= 38 && Abs(v) < TWO113
    ensures 2 * Abs(Down(v, k) * Pow10(k) - v) <= Pow10(k)
    ensures 2 * Abs(Down(v, k) * Pow10(k) - v) == Pow10(k) ==> Abs(Down(v, k)) * Pow10(k) > Abs(v)
  {
    DownRounds(v, k);
    RoundHalfAwayIs(v, k);
    HalfApart(v, Down(v, k), Pow10(k));
  }

  // For all operands: one unit, and 2^-111 of both.
  lemma SumError(l: Decimal, r: Decimal, resultScale: nat, op: AddOp, scale: nat)
    requires l.scale <= scale <= 38 && r.scale <= scale && resultScale <= scale
    ensures var x, y := Rescaled(l, resultScale, Down), Rescaled(r, resultScale, Down);
            var unit := Pow10(scale - resultScale);
            var a, b := l.Unscaled() * Pow10(scale - l.scale), r.Unscaled() * Pow10(scale - r.scale);
            var error := if op == Plus then (x + y) * unit - (a + b) else (x - y) * unit - (a - b);
            TWO113 * Abs(error) <= (TWO113 + 1) * unit + 4 * (Abs(a) + Abs(b))
  {
    LossesAdd(l, r, resultScale, op, scale, Down);
    LossBound(l, resultScale, scale);
    LossBound(r, resultScale, scale);
    BoundsAdd(op, Loss(l, resultScale, scale, Down), Loss(r, resultScale, scale, Down),
              Abs(Rescaled(l, scale, Down)), Abs(Rescaled(r, scale, Down)), Pow10(scale - resultScale));
  }

  lemma LossBound(d: Decimal, resultScale: nat, scale: nat)
    requires d.scale <= scale <= 38 && resultScale <= scale
    ensures 2 * TWO113 * Abs(Loss(d, resultScale, scale, Down))
         <= (TWO113 + 1) * Pow10(scale - resultScale) + 8 * Abs(Rescaled(d, scale, Down))
  {
    if resultScale < d.scale {
      var v, k, m := d.Unscaled(), d.scale - resultScale, Pow10(scale - d.scale);
      DownError(v, k);
      LossIs(d, resultScale, scale, Down, 2 * TWO113, (TWO113 + 1) * Pow10(k) + 8 * Abs(v));
      ScaledBound(TWO113 + 1, Pow10(k), 8, v, m);
    } else {
      NoLoss(d, resultScale, scale, Down);
    }
  }

  lemma ScaledBound(a: int, p: int, b: int, v: int, m: int)
    requires 0 < m
    ensures (a * p + b * Abs(v)) * m == a * (p * m) + b * Abs(v * m)
  {
    AbsScaled(v, m);
    Distribute(a * p, b * Abs(v), m);
    Assoc(a, p, m);
    Assoc(b, Abs(v), m);
  }

  lemma BoundsAdd(op: AddOp, x: int, y: int, a: int, b: int, unit: int)
    requires 2 * TWO113 * Abs(x) <= (TWO113 + 1) * unit + 8 * a
    requires 2 * TWO113 * Abs(y) <= (TWO113 + 1) * unit + 8 * b
    ensures TWO113 * Abs(op.Apply(x, y)) <= (TWO113 + 1) * unit + 4 * (a + b)
  {
  }

  // Beyond 113 bits it can be far off: 10^38 - 8000 in the last place of one digit, scaled down to none,
  // is 800 units too large.
  lemma WideOperandIsOff()
    ensures var d := Decimal(0, Pow10(38) - 8000, 1, 38);
            d.Valid() && Rescaled(d, 0, Down) == Pow10(37) == RoundHalfAway(d.Unscaled(), 1) + 800
  {
    Pow10Constants();
    WideIsOff();
  }

  // ---------- multiplication ----------

  /** To a smaller scale each factor is scaled down by about half of the difference first. */
  function Factors(l: int, r: int, diff: nat): (f: (int, int))
    requires diff <= 76
  {
    (Down(l, diff / 2), Down(r, diff - diff / 2))
  }

  // The right factor is scaled down to zero; or nothing is scaled off a left factor near an end of the
  // type, which then leaves it, or becomes the smallest value and meets -1.
  predicate UndefinedProduct(l: int, r: int, diff: nat)
    requires 1 <= diff <= 76
  {
    || Abs(r) < VanishBelow(diff - diff / 2)
    || (diff == 1 && l >= TWO127 - 0x2000)
    || (diff == 1 && l <= -(TWO127 - 0x2000) && -14 <= r <= -5)
  }

  lemma UndefinedExactly(l: int, r: int, diff: nat)
    requires SInt128.Holds(l) && SInt128.Holds(r) && 1 <= diff <= 76
    ensures var (x, y) := Factors(l, r, diff);
            && (UndefinedProduct(l, r, diff) <==> !SInt128.Holds(x) || y == 0 || (x == SInt128.Min() && y == -1))
            && SInt128.Holds(y)
  {
    DownInRange(l, diff / 2);
    DownInRange(r, diff - diff / 2);
    DownVanishes(r, diff - diff / 2);
  }

  // multiplicationExecute. The exact product at the result scale, or of the factors scaled down; the
  // exception exactly when that product leaves 128 bits; undefined exactly on these operands.
  method Multiply(l: Decimal, r: Decimal, resultScale: nat) returns (result: Checked)
    requires l.Valid() && r.Valid() && resultScale <= 38
    ensures l.Unscaled() == 0 || r.Unscaled() == 0 ==> result == Value(0)
    ensures l.Unscaled() != 0 && r.Unscaled() != 0 && l.scale + r.scale <= resultScale ==>
              var exact := l.Unscaled() * r.Unscaled() * Pow10(resultScale - (l.scale + r.scale));
              result == if l.Unscaled() == SInt128.Min() && r.Unscaled() == -1 then Undefined
                        else if SInt128.Holds(exact) then Value(exact) else Overflow
    ensures l.Unscaled() != 0 && r.Unscaled() != 0 && resultScale < l.scale + r.scale ==>
              var diff := l.scale + r.scale - resultScale;
              var x, y := Down(l.Unscaled(), diff / 2), Down(r.Unscaled(), diff - diff / 2);
              result == if UndefinedProduct(l.Unscaled(), r.Unscaled(), diff) then Undefined
                        else if SInt128.Holds(x * y) then Value(x * y) else Overflow
  {
    var lValue, rValue := l.Unscaled(), r.Unscaled();
    if lValue == 0 || rValue == 0 {
      return Value(0);
    }
    if resultScale >= l.scale + r.scale {
      result := MultiplyUp(SInt128, lValue, rValue, resultScale - (l.scale + r.scale));
    } else {
      result := MultiplyDown(lValue, rValue, l.scale + r.scale - resultScale);
    }
  }

  method MultiplyDown(l: int, r: int, diff: nat) returns (result: Checked)
    requires SInt128.Holds(l) && SInt128.Holds(r) && 1 <= diff <= 76
    ensures var (x, y) := Factors(l, r, diff);
            result == if UndefinedProduct(l, r, diff) then Undefined
                      else if SInt128.Holds(x * y) then Value(x * y) else Overflow
  {
    var lValue := Down(l, diff / 2);
    var rValue := Down(r, diff - diff / 2);
    UndefinedExactly(l, r, diff);
    if !SInt128.Holds(lValue) {
      return Undefined;
    }
    result := CheckedMultiply(SInt128, lValue, rValue);
  }

  // Also multiplication<int64_t, true>, which does not test for a factor of zero first.
  method MultiplyUp(t: IntType, lValue: int, rValue: int, scale: nat) returns (result: Checked)
    requires t in {SInt64, SInt128} && t.Holds(lValue) && t.Holds(rValue)
    requires scale <= if t == SInt64 then 18 else 38
    ensures var exact := lValue * rValue * Pow10(scale);
            result == if rValue == 0 || (lValue == t.Min() && rValue == -1) then Undefined
                      else if t.Holds(exact) then Value(exact) else Overflow
  {
    var scaleMultiplier := ScaleDivisor(scale);
    Pow10Constants();
    Pow10Mono(scale, if t == SInt64 then 18 else 38);
    FactorFits(t, lValue * rValue, scaleMultiplier);
    result := CheckedMultiply(t, lValue, rValue);
    if result.Value? {
      result := CheckedMultiply(t, result.v, scaleMultiplier);
    }
  }

  // Factors of up to 112 bits are rounded half away from zero.
  lemma FactorsRound(l: int, r: int, diff: nat)
    requires diff <= 76 && Abs(l) < TWO112 && Abs(r) < TWO112
    ensures Factors(l, r, diff).0 == RoundHalfAway(l, diff / 2)
    ensures Factors(l, r, diff).1 == RoundHalfAway(r, diff - diff / 2)
  {
    DownRounds(l, diff / 2);
    DownRounds(r, diff - diff / 2);
  }

  // 10^-20 times 4 * 10^-20, to 38 digits: close to zero, and undefined.
  lemma SmallFactorVanishes()
    ensures UndefinedProduct(1, 4, 2) && Factors(1, 4, 2).1 == 0
  {
    assert Pow10(1) == 10;
    DownVanishes(4, 1);
  }

  // A product in range has its factor in range.
  lemma FactorFits(t: IntType, p: int, m: int)
    requires t in {SInt64, SInt128} && 0 < m
    ensures t.Holds(p * m) ==> t.Holds(p)
  {
    if p > 0 {
      MulMono(1, m, p);
    } else {
      MulMono(1, m, -p);
      SignRules(p, m);
    }
  }

  // ---------- MOD by an integer ----------

  // Decimal::operator%
  function ModInteger(v: int, scale: nat, div: int): (r: Checked)
    requires scale <= 38
  {
    if div == 0 then Undefined
    else if scale == 0 then if v == SInt128.Min() && div == -1 then Undefined else Value(TMod(v, div))
    else
      var d := ScaleDivisor(scale);
      Value(SInt128.Wrap(SInt128.Wrap(TMod(TDiv(v, d), div) * d) + TMod(v, d)))
  }

  // The remainder of the number by the integer, at the number's scale, with no overflow on the
  // way: no larger than the number and of its sign.
  lemma ModIsTruncatedRemainder(v: int, scale: nat, div: int)
    requires SInt128.Holds(v) && SInt128.Holds(div) && scale <= 38
    ensures var r := ModInteger(v, scale, div);
            && (r.Undefined? <==> div == 0 || (scale == 0 && v == SInt128.Min() && div == -1))
            && (!r.Undefined? ==>
                 && r.Value? && div * Pow10(scale) != 0 && r.v == TMod(v, div * Pow10(scale))
                 && Abs(r.v) <= Abs(v) && (v >= 0 ==> r.v >= 0) && (v <= 0 ==> r.v <= 0))
  {
    if div == 0 {
      return;
    }
    var d := Pow10(scale);
    MultipleIsLarge(div, d);
    TDivMod(v, div * d);
    if scale > 0 {
      ModInTwoSteps(v, d, div);
      NoWrap(v, TMod(TDiv(v, d), div) * d, TMod(v, d));
    }
  }

  // Between zero and a value in range nothing wraps.
  lemma NoWrap(v: int, x: int, f: int)
    requires SInt128.Holds(v)
    requires v >= 0 ==> 0 <= x <= v && 0 <= x + f <= v
    requires v <= 0 ==> v <= x <= 0 && v <= x + f <= 0
    ensures SInt128.Wrap(SInt128.Wrap(x) + f) == x + f
  {
  }

  lemma ModInTwoSteps(v: int, d: int, div: int)
    requires 0 < d && div != 0 && div * d != 0
    ensures TMod(TDiv(v, d), div) * d + TMod(v, d) == TMod(v, div * d)
    ensures v >= 0 ==> 0 <= TMod(TDiv(v, d), div) * d <= v
    ensures v <= 0 ==> v <= TMod(TDiv(v, d), div) * d <= 0
  {
    TDivMod(v, d);
    var q, f := TDiv(v, d), TMod(v, d);
    TDivMod(q, div);
    var q2, m := TDiv(q, div), TMod(q, div);
    Nested(v, d, div, q, f, q2, m);
    RemainderBound(m, Abs(div), f, d);
    TowardsZero(v, d, q, f, m);
    TDivModUnique(v, div * d, q2, m * d + f);
  }

  lemma Nested(v: int, d: int, div: int, q: int, f: int, q2: int, m: int)
    requires 0 < d && v == q * d + f && q == q2 * div + m
    ensures v == q2 * (div * d) + (m * d + f) && Abs(div * d) == Abs(div) * d
  {
    Assoc(q2, div, d);
    Distribute(q2 * div, m, d);
    SignRules(div, d);
    MulMono(0, Abs(div), d);
  }

  // m lies between zero and q, so m * d lies between zero and v.
  lemma TowardsZero(v: int, d: int, q: int, f: int, m: int)
    requires 0 < d && v == q * d + f
    requires v >= 0 ==> 0 <= m <= q && 0 <= f
    requires v <= 0 ==> q <= m <= 0 && f <= 0
    ensures v >= 0 ==> 0 <= m * d <= v
    ensures v <= 0 ==> v <= m * d <= 0
  {
    if v >= 0 {
      MulMono(0, m, d);
      MulMono(m, q, d);
    }
    if v <= 0 {
      MulMono(m, 0, d);
      MulMono(q, m, d);
    }
  }

  lemma RemainderBound(m: int, n: int, f: int, d: int)
    requires 0 < d && Abs(m) < n && Abs(f) < d
    requires (m >= 0 && f >= 0) || (m <= 0 && f <= 0)
    ensures Abs(m * d + f) < n * d
  {
    SignRules(m, d);
    MulMono(Abs(m) + 1, n, d);
    Distribute(Abs(m), 1, d);
  }
}
