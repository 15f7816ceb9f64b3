/** Fixed-width machine integers, C++ truncating division and powers of ten,
    as the decimal code of ColumnStore uses them. */
module MachineInts {

  const TWO32: int := 0x1_0000_0000
  const TWO48: int := 0x1_0000_0000_0000
  const TWO62: int := 0x4000_0000_0000_0000
  const TWO63: int := 0x8000_0000_0000_0000
  const TWO64: int := 0x1_0000_0000_0000_0000
  const TWO126: int := 0x4000_0000_0000_0000_0000_0000_0000_0000
  const TWO127: int := 0x8000_0000_0000_0000_0000_0000_0000_0000
  const TWO128: int := 0x1_0000_0000_0000_0000_0000_0000_0000_0000

  /** The four integer types the conversion templates are instantiated with. */
  datatype IntType = SInt64 | UInt64 | SInt128 | UInt128 {

    function Max(): (m: int)
    {
      match this
      case SInt64 => TWO63 - 1
      case UInt64 => TWO64 - 1
      case SInt128 => TWO127 - 1
      case UInt128 => TWO128 - 1
    }

    function Min(): (m: int)
    {
      match this
      case SInt64 => -TWO63
      case SInt128 => -TWO127
      case _ => 0
    }

    function Modulus(): (m: int)
    {
      if SInt64? || UInt64? then TWO64 else TWO128
    }

    predicate Holds(x: int)
    {
      Min() <= x <= Max()
    }

    /** Two's-complement wrap-around: the representable value congruent to x. */
    function Wrap(x: int): (r: int)
      ensures Holds(r)
      ensures (x - r) % Modulus() == 0
      ensures Holds(x) ==> r == x
    {
      WrapFacts(x);
      var m := x % Modulus();
      if m > Max() then m - Modulus() else m
    }

    lemma {:induction false} WrapFacts(x: int)
      ensures var m := x % Modulus();
              && (x - m) % Modulus() == 0
              && (x - (m - Modulus())) % Modulus() == 0
              && (0 <= x < Modulus() ==> m == x)
              && (-Modulus() <= x < 0 ==> m == x + Modulus())
    {
      var k := Modulus();
      var q, m := x / k, x % k;
      assert x - m == q * k;
      assert x - (m - k) == (q + 1) * k;
      ModOfMultiple(q, k);
      ModOfMultiple(q + 1, k);
      if 0 <= x < k {
        DivModUnique(x, k, 0, x);
      } else if -k <= x < 0 {
        DivModUnique(x, k, -1, x + k);
      }
    }
  }

  // ---------- Euclidean division ----------

  function Abs(x: int): (r: int)
    ensures 0 <= r
  {
    if x < 0 then -x else x
  }

  function Least(a: int, b: int): (r: int)
  {
    if a <= b then a else b
  }

  lemma TypeRanges(x: int)
    ensures SInt64.Holds(x) <==> -9_223_372_036_854_775_808 <= x <= 9_223_372_036_854_775_807
    ensures UInt64.Holds(x) <==> 0 <= x <= 18_446_744_073_709_551_615
    ensures SInt128.Holds(x) <==> -170_141_183_460_469_231_731_687_303_715_884_105_728 <= x
                                    <= 170_141_183_460_469_231_731_687_303_715_884_105_727
    ensures UInt128.Holds(x) <==> 0 <= x <= 340_282_366_920_938_463_463_374_607_431_768_211_455
  {
  }

  lemma {:induction false} DivModUnique(a: int, d: int, q: int, r: int)
    requires 0 < d && 0 <= r < d && a == q * d + r
    ensures a / d == q && a % d == r
  {
    SameQuotient(q, r, a / d, a % d, d);
  }

  lemma {:induction false} SameQuotient(q: int, r: int, q': int, r': int, d: int)
    requires q * d + r == q' * d + r' && -Abs(d) < r' - r < Abs(d)
    ensures q == q' && r == r'
  {
    if q != q' {
      MultipleIsLarge(q - q', d);
      Distribute(q, q', d);
    }
  }

  // A nonzero multiple of d is at least as large as d in magnitude.
  lemma {:induction false} MultipleIsLarge(k: int, d: int)
    requires k != 0
    ensures Abs(k * d) >= Abs(d)
  {
    MulMono(1, Abs(k), Abs(d));
    assert Abs(k) * Abs(d) == Abs(k * d) by {
      SignRules(k, d);
    }
  }

  lemma {:induction false} ModOfMultiple(q: int, d: int)
    requires 0 < d
    ensures (q * d) % d == 0 && (q * d) / d == q
  {
    DivModUnique(q * d, d, q, 0);
  }

  lemma {:induction false} MulMono(a: int, b: int, c: int)
    requires a <= b && 0 <= c
    ensures a * c <= b * c
  {
  }

  lemma {:induction false} Assoc(a: int, b: int, c: int)
    ensures (a * b) * c == a * (b * c)
  {
  }

  lemma {:induction false} Distribute(a: int, b: int, c: int)
    ensures (a + b) * c == a * c + b * c
    ensures (a - b) * c == a * c - b * c
  {
  }

  // Scaling numerator and denominator alike leaves the quotient and scales the remainder.
  lemma {:induction false} DivModScaled(a: int, d: int, k: int)
    requires 0 < d && 0 < k
    ensures 0 < d * k
    ensures (a * k) / (d * k) == a / d
    ensures (a * k) % (d * k) == (a % d) * k
  {
    var q, r := a / d, a % d;
    assert 0 < d * k;
    assert a * k == q * (d * k) + r * k by {
      assert a == q * d + r;
      assert (q * d) * k == q * (d * k);
    }
    assert 0 <= r * k;
    assert r * k < d * k by { MulMono(r + 1, d, k); }
    DivModUnique(a * k, d * k, q, r * k);
  }

  // Dividing twice is dividing by the product.
  lemma {:induction false} DivTwice(a: int, b: int, c: int)
    requires 0 < b && 0 < c
    ensures 0 < b * c
    ensures a / b / c == a / (b * c)
  {
    var q, r := a / b, a % b;
    var q2, r2 := q / c, q % c;
    assert 0 < b * c;
    var rest := r2 * b + r;
    assert a == q2 * (b * c) + rest by {
      assert a == q * b + r;
      assert q == q2 * c + r2;
      assert (q2 * c + r2) * b == q2 * (b * c) + r2 * b;
    }
    assert 0 <= rest < b * c by {
      assert 0 <= r2 * b;
      MulMono(r2 + 1, c, b);
    }
    DivModUnique(a, b * c, q2, rest);
  }

  // ---------- C++ division: truncation toward zero ----------

  function TDiv(a: int, b: int): (q: int)
    requires b != 0
  {
    var m := Abs(a) / Abs(b);
    if (a < 0) == (b < 0) then m else -m
  }

  function TMod(a: int, b: int): (r: int)
    requires b != 0
  {
    var m := Abs(a) % Abs(b);
    if a < 0 then -m else m
  }

  lemma {:induction false} TDivMod(a: int, b: int)
    requires b != 0
    ensures a == TDiv(a, b) * b + TMod(a, b)
    ensures Abs(TMod(a, b)) < Abs(b)
    ensures a >= 0 ==> TMod(a, b) >= 0
    ensures a <= 0 ==> TMod(a, b) <= 0
    ensures Abs(TMod(a, b)) <= Abs(a) && Abs(TDiv(a, b)) <= Abs(a)
    ensures 0 < b ==> (a >= 0 ==> TDiv(a, b) >= 0) && (a <= 0 ==> TDiv(a, b) <= 0)
  {
    var q, m := Abs(a) / Abs(b), Abs(a) % Abs(b);
    EuclideanBounds(Abs(a), Abs(b));
    SignRules(q, b);
  }

  lemma {:induction false} SignRules(x: int, y: int)
    ensures (-x) * (-y) == x * y
    ensures (-x) * y == -(x * y)
    ensures x * (-y) == -(x * y)
  {
  }

  lemma {:induction false} EuclideanBounds(a: nat, b: nat)
    requires 0 < b
    ensures a == (a / b) * b + a % b
    ensures 0 <= a / b <= a && 0 <= a % b <= a && a % b < b
  {
    MulMono(1, b, a / b);
  }

  // The truncated quotient and remainder are the only pair with these properties.
  lemma {:induction false} TDivModUnique(a: int, b: int, q: int, r: int)
    requires b != 0 && a == q * b + r && Abs(r) < Abs(b)
    requires a > 0 ==> r >= 0
    requires a < 0 ==> r <= 0
    requires a == 0 ==> r == 0
    ensures TDiv(a, b) == q && TMod(a, b) == r
  {
    TDivMod(a, b);
    SameQuotient(q, r, TDiv(a, b), TMod(a, b), b);
  }

  // ---------- powers of ten ----------

  function Pow10(n: nat): (r: int)
    ensures 0 < r
  {
    if n == 0 then 1 else 10 * Pow10(n - 1)
  }

  lemma {:induction false} Pow10Add(a: nat, b: nat)
    ensures Pow10(a + b) == Pow10(a) * Pow10(b)
  {
    if a > 0 {
      Pow10Add(a - 1, b);
      assert Pow10(a + b) == 10 * Pow10(a - 1 + b);
    }
  }

  lemma {:induction false} Pow10Mono(a: nat, b: nat)
    requires a <= b
    ensures Pow10(a) <= Pow10(b)
    ensures a < b ==> Pow10(a) < Pow10(b)
  {
    if a < b {
      Pow10Mono(a, b - 1);
    }
  }

  lemma {:induction false} Pow10Constants()
    ensures Pow10(1) == 10
    ensures Pow10(18) == 1_000_000_000_000_000_000
    ensures Pow10(19) == 10_000_000_000_000_000_000
    ensures Pow10(38) == 100_000_000_000_000_000_000_000_000_000_000_000_000
    ensures Pow10(39) == 1_000_000_000_000_000_000_000_000_000_000_000_000_000
  {
    assert Pow10(9) == 1_000_000_000;
    Pow10Add(9, 9);
    Pow10Add(18, 18);
  }
}
