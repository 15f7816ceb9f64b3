/** Division of a 128-bit integer by a power of ten in IEEE binary128, and rounding to an integer by adding
    one half and truncating (datatypes/mcs_decimal.cpp). */
module Float128Quotient {
  import opened MachineInts
  import opened PowersOfTwo
  import opened Digits
  import opened Float128Rounding

  // ---------- the quotient ----------

  /** Numbers are in units of 2^-FRACTION. In units of 2^-240 or less every number below has all its 113
      bits, so the results do not depend on the unit. */
  type FractionBits = n: nat | 240 <= n witness 240

  const FRACTION: FractionBits

  function One(): (u: int)
    ensures 0 < u
  {
    Pow2(FRACTION)
  }

  function Half(): (u: int)
    ensures 0 < u && One() == 2 * u
  {
    Pow2(FRACTION - 1)
  }

  /** (float128_t)n / m + 0.5 and the conversion to an integer, for n >= 0. */
  function Quotient(n: nat, m: int): (r: nat)
    requires 0 < m
  {
    Truncate(Binary128(Binary128(Binary128(n * One(), 1), m) + Half(), 1))
  }

  function Truncate(w: nat): (r: nat) {
    Truncated(w, One())
  }

  function Truncated(w: nat, u: int): (r: nat)
    requires 0 < u
  {
    w / u
  }

  lemma TruncateIs(w: nat, u: int, n: int)
    requires 0 < u && n * u <= w < (n + 1) * u
    ensures Truncated(w, u) == n
  {
    Distribute(n, 1, u);
    DivModUnique(w, u, n, w - n * u);
  }

  lemma Units()
    ensures One() == TWO113 * Pow2(FRACTION - 113) && Half() == TWO112 * Pow2(FRACTION - 113)
    ensures TWO112 <= Pow2(FRACTION - 113)
  {
    PowerOf112();
    Pow2Add(112, FRACTION - 113);
    Pow2Mono(112, FRACTION - 113);
  }

  lemma PowerOf112()
    ensures Pow2(112) == TWO112
  {
    Pow2Constants();
  }

  lemma PowerOf127()
    ensures Pow2(127) == TWO127
  {
    Pow2Constants();
    Pow2Add(64, 63);
  }

  // An integer of up to 113 bits is converted exactly.
  lemma ConvertExact(n: nat)
    requires n <= TWO113
    ensures Binary128(n * One(), 1) == n * One()
  {
    Exact(n * One(), 1, n, FRACTION);
  }

  // From one half below n the sum with one half is at least n.
  lemma SumAtLeast(c: nat, m: int, n: int)
    requires 0 < m && 1 <= n && 2 * n <= TWO113 && (2 * n - 1) * Half() * m <= c
    ensures n * One() <= Binary128(Binary128(c, m) + Half(), 1)
  {
    AtLeast(c, m, 2 * n - 1, FRACTION - 1);
    AddHalf(Binary128(c, m), n, Half());
    AtLeast(Binary128(c, m) + Half(), 1, n, FRACTION);
  }

  lemma AddHalf(q: int, n: int, h: int)
    requires (2 * n - 1) * h <= q
    ensures n * (2 * h) * 1 <= q + h
  {
    Distribute(2 * n, 1, h);
    Assoc(n, 2, h);
  }

  // Far enough below one half the sum stays below one.
  lemma SumBelowOne(c: nat, m: int)
    requires 0 < m && c <= (TWO112 - 1) * Pow2(FRACTION - 113) * m
    ensures Binary128(Binary128(c, m) + Half(), 1) < One()
  {
    Units();
    AtMost(c, m, TWO112 - 1, FRACTION - 113);
    AtMost(Binary128(c, m) + Half(), 1, TWO113 - 1, FRACTION - 113);
  }

  // A quotient of a number of 113 bits that is below n + 1/2 by at least 1/m, keeps below it, and the sum
  // keeps below n + 1.
  lemma SumBelow(v: nat, m: int, n: int)
    requires v < TWO113 && 10 <= m < TWO127 && 1 <= n && 2 * n + 1 <= TWO113
    requires 2 * v <= (2 * n + 1) * m - 2
    ensures Binary128(Binary128(v * One(), m) + Half(), 1) < (n + 1) * One()
  {
    var c := v * One();
    var e := Exponent(c, m);
    var g, q := Pow2(e), Binary128(c, m);
    LastPlace(v, m);
    var h := Pow2(FRACTION - 1 - e);
    Pow2Add(e, FRACTION - 1 - e);
    BelowHalf(v, m, n, g, h);
    if (2 * n + 2) * h - 1 <= TWO113 {
      AtMost(q + Half(), 1, (2 * n + 2) * h - 1, e);
    } else {
      Wider(n, e);
      NotAboveBinade(c, m);
      SumBelowNext(q, n);
    }
  }

  lemma NotAboveBinade(c: nat, m: int)
    requires 0 < m
    ensures Binary128(c, m) <= TWO113 * Pow2(Exponent(c, m))
  {
    var g := Pow2(Exponent(c, m));
    ExponentFits(c, m);
    NearestAtMost(c, m * g, TWO113);
    MulMono(NearestEven(c, m * g), TWO113, g);
  }

  lemma SumBelowNext(q: nat, n: int)
    requires q <= n * One() && 1 <= n && 2 * n + 1 <= TWO113
    ensures Binary128(q + Half(), 1) < (n + 1) * One()
  {
    Distribute(2 * n, 1, Half());
    Distribute(n, 1, One());
    Assoc(n, 2, Half());
    AtMost(q + Half(), 1, 2 * n + 1, FRACTION - 1);
  }

  // The last place of the quotient times m is less than two.
  lemma LastPlace(v: nat, m: int)
    requires v < TWO113 && 10 <= m < TWO127
    ensures var e := Exponent(v * One(), m); e <= FRACTION - 1 && m * Pow2(e) < 2 * One()
  {
    var e := Exponent(v * One(), m);
    ExponentFits(v * One(), m);
    Units();
    MulMono(v, TWO113 - 1, One());
    if e > FRACTION - 1 {
      Pow2Mono(FRACTION, e);
      MulMono(10, m, Pow2(e));
    }
  }

  lemma BelowHalf(v: nat, m: int, n: int, g: int, h: int)
    requires 0 < m && 0 < g && g * h == Half() && m * g < 2 * One() && 2 * v <= (2 * n + 1) * m - 2
    ensures 0 < m * g && NearestEven(v * One(), m * g) * g + Half() <= ((2 * n + 2) * h - 1) * g
    ensures ((2 * n + 2) * h - 1) * g == (n + 1) * One() - g
  {
    var y := (2 * n + 1) * h;
    MulMono(1, m, g);
    MidpointAbove(v, m, n, g, h);
    NearestBelow(v * One(), m * g, y);
    OnePlaceBelow(NearestEven(v * One(), m * g), n, g, h, Half());
  }

  lemma OnePlaceBelow(x: int, n: int, g: int, h: int, u: int)
    requires 0 < g && g * h == u && x <= (2 * n + 1) * h - 1
    ensures x * g + u <= ((2 * n + 2) * h - 1) * g == (n + 1) * (2 * u) - g
  {
    MulMono(x, (2 * n + 1) * h - 1, g);
    Products(2 * n + 1, h, 1, g);
    Products(2 * n + 2, h, 1, g);
    Distribute((2 * n + 1) * h, 1, g);
    Distribute((2 * n + 2) * h, 1, g);
    Distribute(2 * n + 1, 1, u);
    Assoc(n + 1, 2, u);
  }

  lemma MidpointAbove(v: nat, m: int, n: int, g: int, h: int)
    requires g * h == Half() && m * g < 2 * One() && 2 * v <= (2 * n + 1) * m - 2
    ensures 2 * (v * One()) < 2 * (((2 * n + 1) * h) * (m * g)) - m * g
  {
    Products(2 * n + 1, h, m, g);
    MulMono(2 * v, (2 * n + 1) * m - 2, One());
    Distribute((2 * n + 1) * m, 2, One());
    Assoc(2, v, One());
    TwoHalves(2 * n + 1, Half(), m);
  }

  lemma TwoHalves(x: int, h: int, m: int)
    ensures 2 * (x * h * m) == (x * m) * (2 * h)
  {
    Assoc(x, h, m);
    Assoc(x, m, h);
    assert (x * m) * (2 * h) == 2 * ((x * m) * h);
  }

  // Powers of two between n and n + 1 do not exist.
  lemma Wider(n: int, e: nat)
    requires 1 <= n && e <= FRACTION - 1 && (2 * n + 2) * Pow2(FRACTION - 1 - e) - 1 > TWO113
    ensures TWO113 * Pow2(e) <= n * One()
  {
    Pow2Add(e, FRACTION - 1 - e);
    Units();
    FromLastPlace(n, Pow2(e), Pow2(FRACTION - 1 - e), Half());
    if e <= FRACTION - 113 {
      Pow2Mono(e, FRACTION - 113);
      MulMono(1, n, One());
    } else {
      Pow2Add(FRACTION - 113, e - (FRACTION - 113));
      Assoc(TWO113, Pow2(FRACTION - 113), Pow2(e - (FRACTION - 113)));
      MultipleBelow(n, Pow2(e - (FRACTION - 113)), One());
    }
  }

  lemma FromLastPlace(n: int, g: int, h: int, u: int)
    requires 0 < g && g * h == u && (2 * n + 2) * h - 1 > TWO113
    ensures TWO113 * g < (n + 1) * (2 * u)
  {
    Products(2 * n + 2, h, 1, g);
    MulMono(TWO113 + 2, (2 * n + 2) * h, g);
    Distribute(TWO113, 2, g);
    assert (2 * n + 2) * u == (n + 1) * (2 * u);
  }

  lemma MultipleBelow(n: int, w: int, u: int)
    requires 0 < u && u * w < (n + 1) * u
    ensures u * w <= n * u
  {
    if n < w {
      MulMono(n + 1, w, u);
    }
    MulMono(w, n, u);
  }

  // ---------- where it rounds half up ----------

  // A number of up to 113 bits, or 112 if it is divided by one, is divided and rounded half up.
  lemma QuotientRounds(n: nat, k: nat)
    requires k <= 38 && n < if k == 0 then TWO112 else TWO113
    ensures Quotient(n, Pow10(k)) == RoundHalfUp(n, Pow10(k))
  {
    if k == 0 {
      ConvertExact(n);
      DividedByOne(n);
    } else {
      RoundsByTens(n, k);
    }
  }

  lemma RoundsByTens(n: nat, k: nat)
    requires 1 <= k <= 38 && n < TWO113
    ensures Quotient(n, Pow10(k)) == RoundHalfUp(n, Pow10(k))
  {
    RoundingFacts(n, k, Pow10(k), RoundHalfUp(n, Pow10(k)));
    RoundsTo(n, Pow10(k), RoundHalfUp(n, Pow10(k)));
  }

  lemma RoundingFacts(n: nat, k: nat, m: int, r: nat)
    requires 1 <= k <= 38 && n < TWO113 && m == Pow10(k) && r == RoundHalfUp(n, m)
    ensures 10 <= m < TWO127 && 2 * r + 1 <= TWO113
    ensures (2 * r - 1) * m <= 2 * n <= (2 * r + 1) * m - 2
    ensures r == 0 ==> n * One() <= (TWO112 - 1) * Pow2(FRACTION - 113) * m
  {
    DivisorBounds(k);
    Units();
    EvenGap(n, r, Pow10(k - 1));
    SmallResult(n, r, m);
    if r == 0 {
      FarBelowHalf(n, m, Pow2(FRACTION - 113), One());
    }
  }

  lemma RoundsTo(n: nat, m: int, r: nat)
    requires n < TWO113 && 10 <= m < TWO127 && 2 * r + 1 <= TWO113
    requires (2 * r - 1) * m <= 2 * n <= (2 * r + 1) * m - 2
    requires r == 0 ==> n * One() <= (TWO112 - 1) * Pow2(FRACTION - 113) * m
    ensures Quotient(n, m) == r
  {
    ConvertExact(n);
    if r == 0 {
      VanishingSum(n * One(), m);
    } else {
      RoundsToPositive(n, m, r);
    }
  }

  lemma VanishingSum(c: nat, m: int)
    requires 0 < m && c <= (TWO112 - 1) * Pow2(FRACTION - 113) * m
    ensures Truncate(Binary128(Binary128(c, m) + Half(), 1)) == 0
  {
    SumBelowOne(c, m);
    TruncateIs(Binary128(Binary128(c, m) + Half(), 1), One(), 0);
  }

  lemma RoundsToPositive(n: nat, m: int, r: nat)
    requires n < TWO113 && 10 <= m < TWO127 && 1 <= r && 2 * r + 1 <= TWO113
    requires (2 * r - 1) * m <= 2 * n <= (2 * r + 1) * m - 2
    ensures Truncate(Binary128(Binary128(n * One(), m) + Half(), 1)) == r
  {
    HalfBelow(n, m, r);
    SumAtLeast(n * One(), m, r);
    SumBelow(n, m, r);
    TruncateIs(Binary128(Binary128(n * One(), m) + Half(), 1), One(), r);
  }

  lemma DivisorBounds(k: nat)
    requires 1 <= k <= 38
    ensures 10 <= Pow10(k) < TWO127
    ensures k <= 34 ==> Pow10(k) <= TWO113
    ensures k >= 35 ==> Pow10(k) >= 8 * TWO113
  {
    Pow10Constants();
    Pow10Mono(1, k);
    Pow10Mono(k, 38);
    Pow10ThirtyFour();
    if k <= 34 {
      Pow10Mono(k, 34);
    } else {
      Pow10Mono(35, k);
    }
  }

  lemma Pow10ThirtyFour()
    ensures Pow10(34) == 10_000_000_000_000_000_000_000_000_000_000_000 && Pow10(35) == 10 * Pow10(34)
  {
    assert Pow10(8) == 100_000_000;
    Pow10Add(8, 8);
    Pow10Add(16, 18);
    Pow10Constants();
  }

  lemma DividedByOne(n: nat)
    requires n < TWO112
    ensures Truncate(Binary128(Binary128(n * One(), 1) + Half(), 1)) == n == RoundHalfUp(n, 1)
  {
    ConvertExact(n);
    Distribute(2 * n, 1, Half());
    Exact(n * One() + Half(), 1, 2 * n + 1, FRACTION - 1);
    Distribute(n, 1, One());
    TruncateIs(n * One() + Half(), One(), n);
    RoundHalfUpUnique(n, 1, n);
  }

  lemma SmallResult(n: int, r: nat, m: int)
    requires n < TWO113 && 10 <= m && (2 * r - 1) * m <= 2 * n
    ensures 2 * r + 1 <= TWO113
  {
    if r > 0 {
      MulMono(10, m, 2 * r - 1);
    }
  }

  lemma EvenGap(n: int, r: int, p: int)
    requires 2 * n - 10 * p < 2 * (r * (10 * p)) <= 2 * n + 10 * p
    ensures (2 * r - 1) * (10 * p) <= 2 * n <= (2 * r + 1) * (10 * p) - 2
  {
    Distribute(2 * r, 1, 10 * p);
    Assoc(2, r, 10 * p);
    var t := r * (10 * p) + 5 * p;
    assert (2 * r + 1) * (10 * p) == 2 * t;
  }

  lemma HalfBelow(n: nat, m: int, r: int)
    requires (2 * r - 1) * m <= 2 * n
    ensures (2 * r - 1) * Half() * m <= n * One()
  {
    MulMono((2 * r - 1) * m, 2 * n, Half());
    Assoc(2 * r - 1, Half(), m);
    Assoc(2 * r - 1, m, Half());
    Assoc(n, 2, Half());
  }

  lemma FarBelowHalf(n: nat, m: int, p: int, u: int)
    requires n < TWO113 && 2 * n <= m - 2 && (m <= TWO113 || m >= 8 * TWO113) && 0 < p && u == TWO113 * p
    ensures n * u <= (TWO112 - 1) * p * m
  {
    assert n * TWO113 <= (TWO112 - 1) * m;
    MulMono(n * TWO113, (TWO112 - 1) * m, p);
    Assoc(n, TWO113, p);
    Assoc(TWO112 - 1, m, p);
    Assoc(TWO112 - 1, p, m);
  }

  lemma TruncatedBounds(w: nat, u: int, n: int)
    requires 0 < u
    ensures n * u <= w ==> n <= Truncated(w, u)
    ensures w < (n + 1) * u ==> Truncated(w, u) <= n
  {
    var t := Truncated(w, u);
    EuclideanBounds(w, u);
    if n * u <= w && t < n {
      MulMono(t + 1, n, u);
      Distribute(t, 1, u);
    }
    if w < (n + 1) * u && t > n {
      MulMono(n + 1, t, u);
    }
  }

  // ---------- the range of the result ----------

  // Divided by ten or more, the result is well inside the type.
  lemma ScaledInRange(n: nat, m: int)
    requires n <= TWO127 && 10 <= m
    ensures Quotient(n, m) <= TWO126
  {
    ConvertTop(n);
    DivideTop(Binary128(n * One(), 1), m);
    SumTop(Binary128(Binary128(n * One(), 1), m));
  }

  lemma ConvertTop(n: nat)
    requires n <= TWO127
    ensures Binary128(n * One(), 1) <= TWO113 * Pow2(FRACTION + 14)
  {
    Shifts();
    MulMono(n, TWO127, One());
    AtMost(n * One(), 1, TWO113, FRACTION + 14);
  }

  lemma DivideTop(c: nat, m: int)
    requires c <= TWO113 * Pow2(FRACTION + 14) && 10 <= m
    ensures Binary128(c, m) <= TWO113 * Pow2(FRACTION + 11)
  {
    Shifts();
    MulMono(8, m, TWO113 * Pow2(FRACTION + 11));
    AtMost(c, m, TWO113, FRACTION + 11);
  }

  lemma SumTop(q: nat)
    requires q <= TWO113 * Pow2(FRACTION + 11)
    ensures Truncate(Binary128(q + Half(), 1)) <= TWO126
  {
    Shifts();
    AtMost(q + Half(), 1, TWO113, FRACTION + 13);
    TruncatedBounds(Binary128(q + Half(), 1), One(), TWO126);
  }

  lemma Shifts()
    ensures Pow2(FRACTION + 11) == 0x800 * One() && Pow2(FRACTION + 13) == 0x2000 * One()
    ensures Pow2(FRACTION + 14) == 0x4000 * One() && Pow2(FRACTION + 15) == 0x8000 * One()
  {
    assert Pow2(11) == 0x800 && Pow2(13) == 0x2000;
    Pow2Add(11, FRACTION);
    Pow2Add(13, FRACTION);
  }

  // Divided by one, a number within 2^13 of 2^127 is rounded up to it and leaves the type.
  lemma TopRoundsUp(n: nat)
    requires TWO127 - 0x2000 <= n <= TWO127
    ensures Quotient(n, 1) == TWO127
  {
    ConvertUp(n);
    TopStays();
    TruncateIs(TWO127 * One(), One(), TWO127);
  }

  lemma ConvertUp(n: nat)
    requires TWO127 - 0x2000 <= n <= TWO127
    ensures Binary128(n * One(), 1) == TWO127 * One()
  {
    Shifts();
    MulMono(TWO127 - 0x2000, n, One());
    AboveMidpoint(n * One(), 1, TWO113, FRACTION + 14);
    ConvertTop(n);
  }

  lemma TopStays()
    ensures var c := TWO127 * One(); Binary128(c, 1) == c && Binary128(c + Half(), 1) == c
  {
    Shifts();
    var c := TWO127 * One();
    Exact(c, 1, TWO113, FRACTION + 14);
    AtLeast(c + Half(), 1, TWO113, FRACTION + 14);
    BelowMidpoint(c + Half(), 1, TWO112 + 1, FRACTION + 15);
  }

  lemma BelowTop(n: nat)
    requires n < TWO127 - 0x2000
    ensures Quotient(n, 1) < TWO127
  {
    Shifts();
    var u := One();
    MulMono(n + 1, TWO127 - 0x2000, u);
    Distribute(n, 1, u);
    BelowMidpoint(n * u, 1, TWO113, FRACTION + 14);
    var c := Binary128(n * u, 1);
    AtMost(c, 1, TWO113 - 1, FRACTION + 14);
    var q := Binary128(c, 1);
    BelowMidpoint(q + Half(), 1, TWO113, FRACTION + 14);
    TruncatedBounds(Binary128(q + Half(), 1), u, TWO127 - 1);
  }

  // ---------- where it vanishes ----------

  /** The least number that is not scaled down to zero. Above 10^34 it is less than one half. */
  function VanishBelow(k: nat): (t: nat)
    requires k <= 38
    ensures k <= 34 ==> Pow10(k) <= 2 * t <= Pow10(k) + 1
  {
    if k <= 34 then (Pow10(k) + 1) / 2
    else if k == 35 then 49_999_999_999_999_999_999_999_999_999_999_996
    else if k == 36 then 499_999_999_999_999_999_999_999_999_999_999_905
    else if k == 37 then 4_999_999_999_999_999_999_999_999_999_999_999_233
    else 49_999_999_999_999_999_999_999_999_999_999_995_904
  }

  lemma VanishesExactly(n: nat, k: nat)
    requires k <= 38
    ensures Quotient(n, Pow10(k)) == 0 <==> n < VanishBelow(k)
  {
    if k > 34 {
      VanishesBeyond(n, k);
    } else if n < TWO112 {
      QuotientRounds(n, k);
      RoundsToZero(n, Pow10(k));
    } else {
      Pow10Mono(k, 34);
      Pow10ThirtyFour();
      LargeStays(n, Pow10(k));
    }
  }

  lemma LargeStays(n: nat, m: int)
    requires TWO112 <= n && 0 < m <= TWO113
    ensures Quotient(n, m) > 0
  {
    MulMono(TWO112, n, One());
    AtLeast(n * One(), 1, TWO112, FRACTION);
    NotZero(Binary128(n * One(), 1), m);
  }

  lemma RoundsToZero(n: nat, m: int)
    requires 0 < m
    ensures RoundHalfUp(n, m) == 0 <==> 2 * n < m
  {
    if RoundHalfUp(n, m) > 0 {
      MulMono(1, RoundHalfUp(n, m), m);
    }
  }

  lemma NotZero(c: nat, m: int)
    requires 0 < m <= TWO113 && TWO112 * One() <= c
    ensures Truncate(Binary128(Binary128(c, m) + Half(), 1)) > 0
  {
    MulMono(m, TWO113, Half());
    SumAtLeast(c, m, 1);
    TruncatedBounds(Binary128(Binary128(c, m) + Half(), 1), One(), 1);
  }

  lemma VanishesBeyond(n: nat, k: nat)
    requires 34 < k <= 38
    ensures Quotient(n, Pow10(k)) == 0 <==> n < VanishBelow(k)
  {
    PowersBeyond();
    if k == 35 {
      Vanishes35(n);
    } else if k == 36 {
      Vanishes36(n);
    } else if k == 37 {
      Vanishes37(n);
    } else {
      Vanishes38(n);
    }
  }

  lemma Vanishes35(n: nat)
    ensures Quotient(n, 100_000_000_000_000_000_000_000_000_000_000_000) == 0
            <==> n < 49_999_999_999_999_999_999_999_999_999_999_996
  {
    assert Pow2(3) == 8;
    Threshold(n, 100_000_000_000_000_000_000_000_000_000_000_000,
              49_999_999_999_999_999_999_999_999_999_999_996, 6_250_000_000_000_000_000_000_000_000_000_000, 3);
  }

  lemma Vanishes36(n: nat)
    ensures Quotient(n, 1_000_000_000_000_000_000_000_000_000_000_000_000) == 0
            <==> n < 499_999_999_999_999_999_999_999_999_999_999_905
  {
    assert Pow2(6) == 64;
    Threshold(n, 1_000_000_000_000_000_000_000_000_000_000_000_000,
              499_999_999_999_999_999_999_999_999_999_999_905, 7_812_499_999_999_999_999_999_999_999_999_999, 6);
  }

  lemma Vanishes37(n: nat)
    ensures Quotient(n, 10_000_000_000_000_000_000_000_000_000_000_000_000) == 0
            <==> n < 4_999_999_999_999_999_999_999_999_999_999_999_233
  {
    assert Pow2(9) == 512;
    Threshold(n, 10_000_000_000_000_000_000_000_000_000_000_000_000,
              4_999_999_999_999_999_999_999_999_999_999_999_233, 9_765_624_999_999_999_999_999_999_999_999_999, 9);
  }

  lemma Vanishes38(n: nat)
    ensures Quotient(n, 100_000_000_000_000_000_000_000_000_000_000_000_000) == 0
            <==> n < 49_999_999_999_999_999_999_999_999_999_999_995_904
  {
    assert Pow2(13) == 8192;
    Threshold(n, 100_000_000_000_000_000_000_000_000_000_000_000_000,
              49_999_999_999_999_999_999_999_999_999_999_995_904, 6_103_515_625_000_000_000_000_000_000_000_000, 13);
  }

  lemma PowersBeyond()
    ensures Pow10(35) == 100_000_000_000_000_000_000_000_000_000_000_000
    ensures Pow10(36) == 1_000_000_000_000_000_000_000_000_000_000_000_000
    ensures Pow10(37) == 10_000_000_000_000_000_000_000_000_000_000_000_000
    ensures Pow10(38) == 100_000_000_000_000_000_000_000_000_000_000_000_000
  {
    Pow10ThirtyFour();
  }

  // t is where the conversion reaches s * 2^j, and that is where the quotient gets close to one half.
  lemma Threshold(n: nat, m: int, t: int, s: int, j: nat)
    requires 0 < m && TWO112 < s <= TWO113
    requires var p := Pow2(j); 2 * (s * p) - p == if s % 2 == 0 then 2 * t else 2 * (t - 1)
    requires (s - 1) * Pow2(j) * (4 * TWO113) < m * (2 * TWO113 - 3) < s * Pow2(j) * (4 * TWO113)
    ensures Quotient(n, m) == 0 <==> n < t
  {
    var c := Binary128(n * One(), 1);
    if n < t {
      ConvertBelow(n, t, s, j);
      StaysBelowOne(c, m, (s - 1) * Pow2(j));
    } else {
      ConvertAbove(n, t, s, j);
      ReachesOne(c, m, s * Pow2(j));
    }
    TruncatedBounds(Binary128(Binary128(c, m) + Half(), 1), One(), 1);
    TruncatedBounds(Binary128(Binary128(c, m) + Half(), 1), One(), 0);
  }

  lemma ConvertBelow(n: nat, t: int, s: int, j: nat)
    requires TWO112 < s <= TWO113 && n < t
    requires var p := Pow2(j); 2 * (s * p) - p == if s % 2 == 0 then 2 * t else 2 * (t - 1)
    ensures Binary128(n * One(), 1) <= ((s - 1) * Pow2(j)) * One()
  {
    var p, u := Pow2(j), One();
    Pow2Add(j, FRACTION);
    Scaled(n, s, p, u);
    if s % 2 == 0 {
      MulMono(2 * n + 2, 2 * (s * p) - p, u);
      Distribute(2 * n, 2, u);
    } else {
      MulMono(2 * n, 2 * (s * p) - p, u);
    }
    BelowMidpoint(n * u, 1, s, j + FRACTION);
    Assoc(s - 1, p, u);
  }

  lemma ConvertAbove(n: nat, t: int, s: int, j: nat)
    requires TWO112 < s <= TWO113 && t <= n
    requires var p := Pow2(j); 2 * (s * p) - p == if s % 2 == 0 then 2 * t else 2 * (t - 1)
    ensures (s * Pow2(j)) * One() <= Binary128(n * One(), 1)
  {
    var p, u := Pow2(j), One();
    Pow2Add(j, FRACTION);
    Scaled(n, s, p, u);
    if s % 2 == 0 {
      MulMono(2 * (s * p) - p, 2 * n, u);
    } else {
      MulMono(2 * (s * p) - p + 2, 2 * n, u);
      Distribute(2 * (s * p) - p, 2, u);
    }
    AboveMidpoint(n * u, 1, s, j + FRACTION);
    Assoc(s, p, u);
  }

  lemma Scaled(n: int, s: int, p: int, u: int)
    ensures (2 * n) * u == 2 * (n * u) && (2 * (s * p) - p) * u == 2 * (s * (1 * (p * u))) - 1 * (p * u)
  {
    Assoc(2, n, u);
    Assoc(s, p, u);
    Distribute(2 * (s * p), p, u);
    Assoc(2, s * p, u);
  }

  lemma StaysBelowOne(c: nat, m: int, y: int)
    requires 0 < m && c <= y * One() && y * (4 * TWO113) < m * (2 * TWO113 - 3)
    ensures Binary128(Binary128(c, m) + Half(), 1) < One()
  {
    NearHalf(m, y, y * (4 * TWO113), m * (2 * TWO113 - 3));
    Units();
    BelowMidpoint(c, m, TWO113 - 1, FRACTION - 114);
    AtMost(Binary128(c, m) + Half(), 1, TWO113 - 1, FRACTION - 113);
  }

  lemma ReachesOne(c: nat, m: int, y: int)
    requires 0 < m && y * One() <= c && m * (2 * TWO113 - 3) < y * (4 * TWO113)
    ensures One() <= Binary128(Binary128(c, m) + Half(), 1)
  {
    NearHalf(m, y, m * (2 * TWO113 - 3), y * (4 * TWO113));
    Units();
    AboveMidpoint(c, m, TWO113 - 1, FRACTION - 114);
    AboveMidpoint(Binary128(c, m) + Half(), 1, TWO113, FRACTION - 113);
  }

  // The order of y and the midpoint below one half, in units.
  lemma NearHalf(m: int, y: int, a: int, b: int)
    requires a < b
    ensures a * Pow2(FRACTION - 114) < b * Pow2(FRACTION - 114)
    ensures (y * (4 * TWO113)) * Pow2(FRACTION - 114) == 2 * (y * One())
    ensures (m * (2 * TWO113 - 3)) * Pow2(FRACTION - 114)
         == 2 * ((TWO113 - 1) * (m * Pow2(FRACTION - 114))) - m * Pow2(FRACTION - 114)
    ensures Pow2(FRACTION - 113) == 2 * Pow2(FRACTION - 114)
  {
    var p := Pow2(FRACTION - 114);
    Units();
    MulMono(a + 1, b, p);
    Distribute(a, 1, p);
    Assoc(y, 4 * TWO113, p);
    Assoc(m, 2 * TWO113 - 3, p);
  }

  // ---------- how far off it is ----------

  // A number of at least 112 bits above the unit is rounded by at most its 2^-113th part.
  lemma RelativeError(a: nat, b: int)
    requires 0 < b && TWO112 * b <= a
    ensures TWO113 * Abs(Binary128(a, b) * b - a) <= a
  {
    var g := Pow2(Exponent(a, b));
    ExponentFits(a, b);
    NearestEvenIs(a, b * g);
    Products(NearestEven(a, b * g), 1, b, g);
  }

  // For every number and scale: half a unit, and 2^-110 of the number.
  lemma QuotientError(n: nat, m: int)
    requires 0 < m < TWO127
    ensures 2 * TWO113 * Abs(Quotient(n, m) * m - n) <= (TWO113 + 1) * m + 8 * n
  {
    if n == 0 {
      ZeroStays(m);
    } else {
      var c := Binary128(n * One(), 1);
      var q := Binary128(c, m);
      FullWidth(n, m);
      RelativeError(n * One(), 1);
      RelativeError(c, m);
      SumError(q);
      ErrorsAdd(n, m, Half(), c, q, Binary128(q + Half(), 1), Truncate(Binary128(q + Half(), 1)));
    }
  }

  lemma SumError(q: nat)
    ensures var w := Binary128(q + Half(), 1);
            TWO113 * Abs(w - (q + Half())) <= q + Half() && Truncate(w) * One() <= w < Truncate(w) * One() + One()
  {
    Units();
    RelativeError(q + Half(), 1);
    TruncatedWithin(Binary128(q + Half(), 1), One());
  }

  lemma TruncatedWithin(w: nat, u: int)
    requires 0 < u
    ensures Truncated(w, u) * u <= w < Truncated(w, u) * u + u
  {
    EuclideanBounds(w, u);
  }

  // All operands and results have their 113 bits.
  lemma FullWidth(n: nat, m: int)
    requires 0 < n && 0 < m < TWO127
    ensures TWO112 <= n * One() && TWO112 * m <= Binary128(n * One(), 1)
  {
    WideUnit(m);
    MulMono(1, n, One());
    AtLeast(n * One(), 1, 1, FRACTION);
  }

  lemma WideUnit(m: int)
    requires 0 < m < TWO127
    ensures TWO112 <= One() && TWO112 * m <= One()
  {
    Units();
    PowerOf127();
    Pow2Mono(127, FRACTION - 113);
  }

  lemma ZeroStays(m: int)
    requires 0 < m
    ensures Quotient(0, m) == 0
  {
    AtMost(0, 1, 0, FRACTION);
    AtMost(0, m, 0, FRACTION);
    Exact(Half(), 1, 1, FRACTION - 1);
    TruncateIs(Half(), One(), 0);
  }

  lemma ErrorsAdd(n: nat, m: int, h: int, c: nat, q: nat, w: nat, t: int)
    requires 0 < m && 0 < h
    requires TWO113 * Abs(c - n * (2 * h)) <= n * (2 * h) && TWO113 * Abs(q * m - c) <= c
    requires TWO113 * Abs(w - (q + h)) <= q + h && t * (2 * h) <= w < t * (2 * h) + 2 * h
    ensures 2 * TWO113 * Abs(t * m - n) <= (TWO113 + 1) * m + 8 * n
  {
    var u := 2 * h;
    ScaledSum(q, h, w, m);
    ScaledTruncation(t, u, w, m);
    Assoc(2, h, m);
    CombinedError(n, m, h, c, q * m, w * m, t * m);
    CancelError(t * m, n, m, u);
  }

  lemma CombinedError(n: nat, m: int, h: int, c: int, q: int, w: int, x: int)
    requires 0 < m && 0 < h && TWO113 * Abs(c - n * (2 * h)) <= n * (2 * h) && TWO113 * Abs(q - c) <= c
    requires TWO113 * Abs(w - q - h * m) <= q + h * m && x * (2 * h) <= w <= x * (2 * h) + 2 * (h * m)
    ensures 2 * TWO113 * Abs(x * (2 * h) - n * (2 * h)) <= (TWO113 + 1) * (2 * (h * m)) + 8 * (n * (2 * h))
  {
    MulMono(0, n, 2 * h);
    MulMono(0, h, m);
    Combined(n * (2 * h), c, q, h * m, w, x * (2 * h));
  }

  lemma ScaledTruncation(t: int, u: int, w: int, m: int)
    requires 0 < m && t * u <= w < t * u + u
    ensures (t * m) * u <= w * m <= (t * m) * u + u * m
  {
    MulMono(t * u, w, m);
    MulMono(w, t * u + u, m);
    Distribute(t * u, u, m);
    assert (t * u) * m == (t * m) * u;
  }

  lemma ScaledSum(q: int, h: int, w: int, m: int)
    requires 0 < m && TWO113 * Abs(w - (q + h)) <= q + h
    ensures TWO113 * Abs(w * m - q * m - h * m) <= q * m + h * m
  {
    var x := w - (q + h);
    MulMono(TWO113 * x, q + h, m);
    MulMono(-(q + h), TWO113 * x, m);
    Assoc(TWO113, x, m);
    SignRules(q + h, m);
    Distribute(w, q + h, m);
    Distribute(q, h, m);
  }

  lemma Combined(a: int, c: int, q: int, h: int, w: int, t: int)
    requires 0 <= a && 0 <= h && TWO113 * Abs(c - a) <= a && TWO113 * Abs(q - c) <= c
    requires TWO113 * Abs(w - q - h) <= q + h && t <= w <= t + 2 * h
    ensures TWO113 * Abs(t - a) <= (TWO113 + 1) * h + 4 * a
  {
  }

  lemma CancelError(x: int, n: int, m: int, u: int)
    requires 0 < u && 2 * TWO113 * Abs(x * u - n * u) <= (TWO113 + 1) * (u * m) + 8 * (n * u)
    ensures 2 * TWO113 * Abs(x - n) <= (TWO113 + 1) * m + 8 * n
  {
    var z := if x >= n then x - n else n - x;
    Distribute(x, n, u);
    SignRules(x - n, u);
    assert Abs(x * u - n * u) == z * u by {
      MulMono(0, z, u);
    }
    assert (2 * TWO113 * z) * u == 2 * TWO113 * (z * u);
    assert ((TWO113 + 1) * m + 8 * n) * u == (TWO113 + 1) * (u * m) + 8 * (n * u);
    CancelLe(2 * TWO113 * z, (TWO113 + 1) * m + 8 * n, u);
  }

  // ---------- beyond the bounds ----------

  // Divided by one, an odd number of 113 bits gives the next one: adding one half cannot be exact.
  lemma OddIsMoved(n: nat)
    requires TWO112 <= n < TWO113 && n % 2 == 1
    ensures Quotient(n, 1) == n + 1
  {
    ConvertExact(n);
    OddSum(n, FRACTION, Half());
    Steps(n, 1, n * One(), n * One(), n + 1);
  }

  lemma OddSum(n: nat, f: nat, h: int)
    requires TWO112 <= n < TWO113 && n % 2 == 1 && Pow2(f) == 2 * h
    ensures Binary128(n * Pow2(f) + h, 1) == (n + 1) * Pow2(f)
  {
    OddMidpoint(n, Pow2(f), h);
    AboveMidpoint(n * Pow2(f) + h, 1, n + 1, f);
    AtMost(n * Pow2(f) + h, 1, n + 1, f);
  }

  lemma OddMidpoint(n: nat, u: int, h: int)
    requires 0 < u == 2 * h
    ensures 2 * (n * u + h) == 2 * ((n + 1) * (1 * u)) - 1 * u && 0 <= n * u + h <= (n + 1) * u * 1
  {
    Distribute(n, 1, u);
    MulMono(0, n, u);
  }

  lemma Steps(n: nat, m: int, c: nat, q: nat, r: nat)
    requires 0 < m && Binary128(n * One(), 1) == c && Binary128(c, m) == q
    requires Binary128(q + Half(), 1) == r * One()
    ensures Quotient(n, m) == r
  {
    Distribute(r, 1, One());
    TruncateIs(r * One(), One(), r);
  }

  // 10^38 - 8000 divided by ten is 800 too large.
  lemma WideIsOff()
    ensures var n, r := Pow10(38) - 8000, Pow10(37);
            0 <= n && Quotient(n, 10) == r && RoundHalfUp(n, 10) == r - 800
  {
    PowersBeyond();
    assert Pow2(14) == 0x4000 && Pow2(10) == 0x400;
    NearMultiple(Pow10(38) - 8000, 10, 6_103_515_625_000_000_000_000_000_000_000_000, 14,
                 9_765_625_000_000_000_000_000_000_000_000_000, 10);
    WideRounded();
  }

  lemma WideRounded()
    ensures 0 <= Pow10(38) - 8000 && RoundHalfUp(Pow10(38) - 8000, 10) == Pow10(37) - 800
  {
    PowersBeyond();
    RoundHalfUpUnique(Pow10(38) - 8000, 10, Pow10(37) - 800);
  }

  // A number that is converted to the multiple s * 2^j of m gives that multiple divided by m.
  lemma NearMultiple(n: nat, m: int, s: nat, j: nat, s': nat, j': nat)
    requires 0 < m && TWO112 < s <= TWO113 && TWO112 <= s' < TWO113 && 1 <= j && 1 <= j'
    requires s % 2 == 0 && s * Pow2(j) == s' * Pow2(j') * m
    requires 2 * (s * Pow2(j)) - Pow2(j) <= 2 * n <= 2 * (s * Pow2(j))
    ensures Quotient(n, m) == s' * Pow2(j')
  {
    ConvertNear(n, s, j);
    GivesMultiple(n, m, s * Pow2(j), s', j');
  }

  lemma ConvertNear(n: nat, s: nat, j: nat)
    requires TWO112 < s <= TWO113 && s % 2 == 0 && 1 <= j
    requires 2 * (s * Pow2(j)) - Pow2(j) <= 2 * n <= 2 * (s * Pow2(j))
    ensures Binary128(n * One(), 1) == (s * Pow2(j)) * One()
  {
    ConvertAbove(n, s * Pow2(j) - Pow2(j - 1), s, j);
    ConvertAtMost(n, s, j);
  }

  lemma GivesMultiple(n: nat, m: int, y: nat, s: nat, j: nat)
    requires 0 < m && TWO112 <= s < TWO113 && 1 <= j && y == s * Pow2(j) * m
    requires Binary128(n * One(), 1) == y * One()
    ensures Quotient(n, m) == s * Pow2(j)
  {
    DivideExact(y, m, s, j);
    SumStays(s, j);
    Steps(n, m, y * One(), (s * Pow2(j)) * One(), s * Pow2(j));
  }

  lemma ConvertAtMost(n: nat, s: nat, j: nat)
    requires s <= TWO113 && n <= s * Pow2(j)
    ensures Binary128(n * One(), 1) <= (s * Pow2(j)) * One()
  {
    Pow2Add(j, FRACTION);
    MulMono(n, s * Pow2(j), One());
    Assoc(s, Pow2(j), One());
    AtMost(n * One(), 1, s, j + FRACTION);
  }

  lemma DivideExact(y: nat, m: int, s: nat, j: nat)
    requires 0 < m && s <= TWO113 && y == s * Pow2(j) * m
    ensures Binary128(y * One(), m) == (s * Pow2(j)) * One()
  {
    Pow2Add(j, FRACTION);
    Commuted(s, Pow2(j), m, One());
    Exact(y * One(), m, s, j + FRACTION);
  }

  lemma Commuted(s: int, p: int, m: int, u: int)
    ensures (s * p * m) * u == (s * (p * u)) * m && (s * p) * u == s * (p * u)
  {
    Assoc(s, p, u);
    Assoc(s * p, m, u);
    Assoc(s * p, u, m);
  }

  // Adding one half to a number whose last bit is worth two or more does nothing.
  lemma SumStays(s: nat, j: nat)
    requires TWO112 <= s < TWO113 && 1 <= j
    ensures Binary128((s * Pow2(j)) * One() + Half(), 1) == (s * Pow2(j)) * One()
  {
    Pow2Add(j, FRACTION);
    Assoc(s, Pow2(j), One());
    MulMono(2, Pow2(j), One());
    SmallAddend(s, j + FRACTION, Half());
  }

  lemma SmallAddend(s: nat, f: nat, h: int)
    requires TWO112 <= s < TWO113 && 0 <= h && 2 * h < Pow2(f)
    ensures Binary128(s * Pow2(f) + h, 1) == s * Pow2(f)
  {
    SumMidpoint(s, Pow2(f), h);
    AtLeast(s * Pow2(f) + h, 1, s, f);
    BelowMidpoint(s * Pow2(f) + h, 1, s + 1, f);
  }

  lemma SumMidpoint(s: nat, p: int, h: int)
    requires 0 <= h && 2 * h < p
    ensures 0 <= s * p && 2 * (s * p + h) < 2 * ((s + 1) * (1 * p)) - 1 * p
  {
    MulMono(0, s, p);
    Distribute(s, 1, p);
  }

  // Just below one half, with 38 digits scaled off, is rounded up.
  lemma AlmostHalfIsOne()
    ensures var n := Pow10(38) / 2 - 1; Quotient(n, Pow10(38)) > 0 && RoundHalfUp(n, Pow10(38)) == 0
  {
    PowersBeyond();
    VanishesExactly(Pow10(38) / 2 - 1, 38);
    RoundsToZero(Pow10(38) / 2 - 1, Pow10(38));
  }

  // ---------- the divisor ----------

  // A power of ten up to 10^38 is converted exactly, so dividing by it is dividing by the integer.
  lemma DivisorIsExact(k: nat)
    requires k <= 38
    ensures Binary128(Pow10(k) * One(), 1) == Pow10(k) * One()
  {
    FivesAndTwos(k);
    FivesFit(k);
    DivideExact(Pow10(k), 1, Pow5(k), k);
  }

  lemma FivesFit(k: nat)
    requires k <= 38
    ensures Pow5(k) <= TWO113
  {
    FivesMono(k, 38);
    FivesEighteen();
    FivesAdd(18, 18);
  }

  function Pow5(n: nat): (r: nat)
    ensures 0 < r
  {
    if n == 0 then 1 else 5 * Pow5(n - 1)
  }

  lemma {:induction false} FivesAndTwos(k: nat)
    ensures Pow10(k) == Pow5(k) * Pow2(k)
  {
    if k > 0 {
      FivesAndTwos(k - 1);
      assert Pow5(k) * Pow2(k) == 10 * (Pow5(k - 1) * Pow2(k - 1));
    }
  }

  lemma FivesEighteen()
    ensures Pow5(18) == 3_814_697_265_625
  {
    assert Pow5(9) == 1_953_125;
    FivesAdd(9, 9);
  }

  lemma {:induction false} FivesAdd(a: nat, b: nat)
    ensures Pow5(a + b) == Pow5(a) * Pow5(b)
  {
    if a > 0 {
      FivesAdd(a - 1, b);
      assert Pow5(a + b) == 5 * Pow5(a - 1 + b);
    }
  }

  lemma {:induction false} FivesMono(a: nat, b: nat)
    requires a <= b
    ensures Pow5(a) <= Pow5(b)
  {
    if a < b {
      FivesMono(a, b - 1);
    }
  }

  // ---------- one ----------

  // Divided by ten, the numbers 5 to 14 give one.
  lemma GivesOne(n: nat)
    ensures Quotient(n, 10) == 1 <==> 5 <= n <= 14
  {
    assert Pow10(1) == 10;
    if n < TWO113 {
      QuotientRounds(n, 1);
      RoundsToOne(n);
    } else {
      MulMono(TWO113, n, One());
      AtLeast(n * One(), 1, TWO113, FRACTION);
      var c := Binary128(n * One(), 1);
      SumAtLeast(c, 10, 2);
      TruncatedBounds(Binary128(Binary128(c, 10) + Half(), 1), One(), 2);
    }
  }

  lemma RoundsToOne(n: nat)
    ensures RoundHalfUp(n, 10) == 1 <==> 5 <= n <= 14
  {
  }
}
