/** Rounding to the 113 bits of IEEE binary128, section 3.4 of IEEE 754-2008: to nearest, ties to even,
    section 4.3.1. Magnitudes are rationals a/b; results are integers. */
module Float128Rounding {
  import opened MachineInts
  import opened PowersOfTwo

  // ---------- the nearest integer, ties to even ----------

  function NearestEven(a: nat, d: int): (q: nat)
    requires 0 < d
  {
    var q, r := a / d, a % d;
    if 2 * r < d || (2 * r == d && q % 2 == 0) then q else q + 1
  }

  lemma NearestEvenIs(a: nat, d: int)
    requires 0 < d
    ensures var q := NearestEven(a, d);
            && 2 * a - d <= 2 * (q * d) <= 2 * a + d
            && (2 * (q * d) == 2 * a - d || 2 * (q * d) == 2 * a + d ==> q % 2 == 0)
  {
    EuclideanBounds(a, d);
    Distribute(a / d, 1, d);
  }

  lemma NearestAtMost(a: nat, d: int, y: int)
    requires 0 < d && a <= y * d
    ensures NearestEven(a, d) <= y
  {
    NearestEvenIs(a, d);
    if NearestEven(a, d) > y {
      MulMono(y + 1, NearestEven(a, d), d);
      Distribute(y, 1, d);
    }
  }

  lemma NearestAtLeast(a: nat, d: int, y: int)
    requires 0 < d && y * d <= a
    ensures y <= NearestEven(a, d)
  {
    NearestEvenIs(a, d);
    if NearestEven(a, d) < y {
      MulMono(NearestEven(a, d), y - 1, d);
      Distribute(y, 1, d);
    }
  }

  // Below the midpoint of y - 1 and y, or on it and y is odd.
  lemma NearestBelow(a: nat, d: int, y: int)
    requires 0 < d && (2 * a < 2 * (y * d) - d || (2 * a == 2 * (y * d) - d && y % 2 == 1))
    ensures NearestEven(a, d) <= y - 1
  {
    NearestEvenIs(a, d);
    var q := NearestEven(a, d);
    if q > y {
      MulMono(y + 1, q, d);
      Distribute(y, 1, d);
    }
  }

  lemma NearestAbove(a: nat, d: int, y: int)
    requires 0 < d && (2 * a > 2 * (y * d) - d || (2 * a == 2 * (y * d) - d && y % 2 == 0))
    ensures y <= NearestEven(a, d)
  {
    NearestEvenIs(a, d);
    var q := NearestEven(a, d);
    Distribute(y, 1, d);
    if q < y - 1 {
      MulMono(q, y - 2, d);
      Distribute(y, 2, d);
    }
  }

  // ---------- rounding to 113 bits ----------

  /** The exponent of the last of 113 bits of a/b. */
  function Exponent(a: nat, b: int): (e: nat)
    requires 0 < b
    decreases a - b
  {
    if a < TWO113 * b then 0 else 1 + Exponent(a, 2 * b)
  }

  /** a/b rounded to 113 bits. */
  function Binary128(a: nat, b: int): (r: nat)
    requires 0 < b
  {
    var e := Exponent(a, b);
    NearestEven(a, b * Pow2(e)) * Pow2(e)
  }

  lemma {:induction false} ExponentFits(a: nat, b: int)
    requires 0 < b
    ensures var d := b * Pow2(Exponent(a, b));
            0 < d && a < TWO113 * d && (Exponent(a, b) > 0 ==> TWO112 * d <= a)
    decreases a - b
  {
    if a >= TWO113 * b {
      ExponentFits(a, 2 * b);
      var e := Exponent(a, 2 * b);
      assert b * Pow2(e + 1) == (2 * b) * Pow2(e);
    }
  }

  lemma ExponentIs(a: nat, b: int, f: nat)
    requires 0 < b && TWO112 * (b * Pow2(f)) <= a < TWO113 * (b * Pow2(f))
    ensures Exponent(a, b) == f
  {
    var e := Exponent(a, b);
    ExponentFits(a, b);
    if e < f {
      Pow2Mono(e, f);
      NextBinade(a, b, Pow2(e), Pow2(f));
    } else if f < e {
      Pow2Mono(f, e);
      NextBinade(a, b, Pow2(f), Pow2(e));
    }
  }

  lemma NextBinade(a: nat, b: int, g: int, p: int)
    requires 0 < b && 2 * g <= p && TWO112 * (b * p) <= a
    ensures TWO113 * (b * g) <= a
  {
    MulMono(2 * g, p, b);
    assert b * (2 * g) == 2 * (b * g);
  }

  lemma Products(s: int, h: int, b: int, g: int)
    ensures (s * h) * (b * g) == s * (g * h) * b && (s * h) * g == s * (g * h)
  {
    assert (s * h) * g == s * (g * h);
    assert (s * h) * (b * g) == ((s * h) * g) * b;
  }

  lemma CancelLe(x: int, y: int, b: int)
    requires 0 < b && x * b <= y * b
    ensures x <= y
  {
    if x > y {
      MulMono(y + 1, x, b);
      Distribute(y, 1, b);
    }
  }

  // s * 2^f is a number of 113 bits. Rounding does not cross it.
  lemma AtMost(a: nat, b: int, s: nat, f: nat)
    requires 0 < b && s <= TWO113 && a <= s * Pow2(f) * b
    ensures Binary128(a, b) <= s * Pow2(f)
  {
    var e := Exponent(a, b);
    var g, p := Pow2(e), Pow2(f);
    ExponentFits(a, b);
    if e <= f {
      var h := Pow2(f - e);
      Pow2Add(e, f - e);
      Products(s, h, b, g);
      NearestAtMost(a, b * g, s * h);
      MulMono(NearestEven(a, b * g), s * h, g);
    } else {
      Pow2Mono(f, e);
      MulMono(s, TWO113, p);
      MulMono(s * p, TWO112 * g, b);
      Products(TWO112, 1, b, g);
      CancelLe(TWO112 * g, s * p, b);
      NearestAtMost(a, b * g, TWO112);
      MulMono(NearestEven(a, b * g), TWO112, g);
    }
  }

  lemma AtLeast(a: nat, b: int, s: nat, f: nat)
    requires 0 < b && s <= TWO113 && s * Pow2(f) * b <= a
    ensures s * Pow2(f) <= Binary128(a, b)
  {
    var e := Exponent(a, b);
    var g, p := Pow2(e), Pow2(f);
    ExponentFits(a, b);
    if e <= f {
      var h := Pow2(f - e);
      Pow2Add(e, f - e);
      Products(s, h, b, g);
      NearestAtLeast(a, b * g, s * h);
      MulMono(s * h, NearestEven(a, b * g), g);
    } else {
      Pow2Mono(f, e);
      MulMono(s, TWO113, p);
      NearestAtLeast(a, b * g, TWO112);
      MulMono(TWO112, NearestEven(a, b * g), g);
    }
  }

  // A number of 113 bits is not rounded.
  lemma Exact(a: nat, b: int, s: nat, f: nat)
    requires 0 < b && s <= TWO113 && a == s * Pow2(f) * b
    ensures Binary128(a, b) == s * Pow2(f)
  {
    AtMost(a, b, s, f);
    AtLeast(a, b, s, f);
  }

  // Below the midpoint of the neighbours (s - 1) * 2^f and s * 2^f, or on it and s is odd.
  lemma BelowMidpoint(a: nat, b: int, s: int, f: nat)
    requires 0 < b && TWO112 < s <= TWO113
    requires var d := b * Pow2(f); 2 * a < 2 * (s * d) - d || (2 * a == 2 * (s * d) - d && s % 2 == 1)
    ensures Binary128(a, b) <= (s - 1) * Pow2(f)
  {
    var p := Pow2(f);
    var d := b * p;
    Products(s - 1, 1, b, p);
    if a <= (s - 1) * d {
      AtMost(a, b, s - 1, f);
    } else {
      MulMono(TWO112, s - 1, d);
      MulMono(s, TWO113, d);
      ExponentIs(a, b, f);
      NearestBelow(a, d, s);
      MulMono(NearestEven(a, d), s - 1, p);
    }
  }

  lemma AboveMidpoint(a: nat, b: int, s: int, f: nat)
    requires 0 < b && TWO112 < s <= TWO113
    requires var d := b * Pow2(f); 2 * a > 2 * (s * d) - d || (2 * a == 2 * (s * d) - d && s % 2 == 0)
    ensures s * Pow2(f) <= Binary128(a, b)
  {
    var p := Pow2(f);
    var d := b * p;
    Products(s, 1, b, p);
    if a >= s * d {
      AtLeast(a, b, s, f);
    } else {
      Distribute(s, 1, d);
      MulMono(TWO112, s - 1, d);
      MulMono(s, TWO113, d);
      ExponentIs(a, b, f);
      NearestAbove(a, d, s);
      MulMono(s, NearestEven(a, d), p);
    }
  }
}
