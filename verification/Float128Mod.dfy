/** The exact remainder of two IEEE binary128 numbers by shift and subtract
    (datatypes/mcs_float128.h). The format is section 3.4 of IEEE 754-2008: one sign bit, a
    15-bit exponent and 112 fraction bits, here as two 64-bit words. Every finite number is
    an integer multiple of 2^-16494, so magnitudes are integers. */
module Float128Mod {
  import opened MachineInts
  import opened PowersOfTwo

  const INFINITE: int := 0x7fff_0000_0000_0000

  datatype Words = Words(high: int, low: int) {
    predicate Valid()
    {
      0 <= high < TWO64 && 0 <= low < TWO64
    }
    predicate Negative()
    {
      high >= TWO63
    }
    // The high word without the sign bit.
    function Abs(): (h: int)
      requires Valid()
      ensures 0 <= h < TWO63
    {
      if Negative() then high - TWO63 else high
    }
    predicate Finite()
      requires Valid()
    {
      Abs() < INFINITE
    }
    predicate NaN()
      requires Valid()
    {
      Abs() > INFINITE || (Abs() == INFINITE && low != 0)
    }
  }

  datatype Result = NotANumber | Number(w: Words)

  // ---------- magnitudes ----------

  /** Two words as one integer. */
  function Join(h: int, l: int): (n: int)
  {
    h * TWO64 + l
  }

  /** |x| in units of 2^-16494, for a finite x without its sign bit. */
  function Mag(h: int, l: int): (m: int)
    requires 0 <= h < INFINITE && 0 <= l < TWO64
    ensures 0 <= m
  {
    var e := h / TWO48;
    if e == 0 then Join(h, l) else (TWO112 + Join(h % TWO48, l)) * Pow2(e - 1)
  }

  // With exponent field e and fraction field f of 112 bits, in two words: (2^112 + f) * 2^(e - 1) units, and
  // f units for a subnormal number. The number one has the exponent field 0x3fff.
  lemma MagOfFields(e: nat, high: nat, low: nat)
    requires e < 0x7fff && high < 0x1_0000_0000_0000 && low < 0x1_0000_0000_0000_0000
    ensures 0 <= e * 0x1_0000_0000_0000 + high < INFINITE
    ensures var f := high * 0x1_0000_0000_0000_0000 + low;
            Mag(e * 0x1_0000_0000_0000 + high, low)
            == if e == 0 then f else (0x1_0000_0000_0000_0000_0000_0000_0000 + f) * Pow2(e - 1)
  {
    var h := e * TWO48 + high;
    DivModUnique(h, TWO48, e, high);
  }

  /** sig * 2^(i - 112) is m * 2^-16494: the significand sig and exponent i denote m. */
  predicate Denotes(sig: int, i: int, m: int)
  {
    i >= -16494 && m * TWO112 == sig * Pow2(i + 16494)
  }

  // Of two numbers with their words in order, the magnitudes are in order.
  lemma {:induction false} MagOrder(hx: int, lx: int, hy: int, ly: int)
    requires 0 <= hx < INFINITE && 0 <= lx < TWO64 && 0 <= hy < INFINITE && 0 <= ly < TWO64
    requires hx < hy || (hx == hy && lx < ly)
    ensures Mag(hx, lx) < Mag(hy, ly)
  {
    var ex, ey := hx / TWO48, hy / TWO48;
    if ex == ey {
      if ex > 0 {
        ScaledBelow(TWO112 + Join(hx % TWO48, lx), TWO112 + Join(hy % TWO48, ly), Pow2(ex - 1));
      }
    } else {
      MagBounds(hx, lx);
      MagBounds(hy, ly);
      Pow2Mono(ex, ey - 1);
    }
  }

  lemma ScaledBelow(a: int, b: int, p: int)
    requires a < b && 0 < p
    ensures a * p < b * p
  {
    MulMono(a + 1, b, p);
    Distribute(a, 1, p);
  }

  lemma {:induction false} MagBounds(h: int, l: int)
    requires 0 <= h < INFINITE && 0 <= l < TWO64
    ensures var e := h / TWO48;
            if e == 0 then Mag(h, l) < TWO112 else TWO112 * Pow2(e - 1) <= Mag(h, l) < TWO112 * Pow2(e)
  {
    var e := h / TWO48;
    if e > 0 {
      var s := TWO112 + Join(h % TWO48, l);
      assert TWO112 <= s < TWO113;
      MulMono(TWO112, s, Pow2(e - 1));
      MulMono(s + 1, TWO113, Pow2(e - 1));
      Distribute(s, 1, Pow2(e - 1));
    }
  }

  // ---------- word operations ----------

  // (a << k) | b, where b has no bit at or above k
  function OrShifted(a: int, k: nat, b: int): (r: int)
    requires 0 <= b < Pow2(k)
  {
    a * Pow2(k) + b
  }

  // {h, l} << 1
  function Double(h: int, l: int): (r: (int, int))
  {
    (h + h + l / TWO63, (l + l) % TWO64)
  }

  lemma DoubleJoins(h: int, l: int)
    requires 0 <= l < TWO64
    ensures var (h', l') := Double(h, l); Join(h', l') == 2 * Join(h, l) && 0 <= l' < TWO64
  {
  }

  // {hx, lx} - {hy, ly} with borrow
  function Subtract(hx: int, lx: int, hy: int, ly: int): (r: (int, int))
  {
    (hx - hy - if lx < ly then 1 else 0, (lx - ly) % TWO64)
  }

  lemma SubtractJoins(hx: int, lx: int, hy: int, ly: int)
    requires 0 <= lx < TWO64 && 0 <= ly < TWO64
    ensures var (hz, lz) := Subtract(hx, lx, hy, ly);
            && Join(hz, lz) == Join(hx, lx) - Join(hy, ly)
            && 0 <= lz < TWO64
            && (hz < 0 <==> Join(hx, lx) < Join(hy, ly))
            && (hz == 0 && lz == 0 <==> Join(hx, lx) == Join(hy, ly))
  {
  }

  // ---------- exponent and significand of an operand ----------

  // Counts the exponent down while the word, read as a signed number, is positive and is shifted left.
  method ShiftToSignBit(first: int, start: int) returns (ix: int)
    requires 0 < first < TWO64
    ensures ix <= start && TWO63 <= first * Pow2(start - ix) < TWO64
  {
    ix := start;
    var i := first;
    while 0 < i < TWO63
      invariant ix <= start && 0 < i < TWO64 && i == first * Pow2(start - ix)
      decreases TWO64 - i
    {
      Assoc(first, Pow2(start - ix), 2);
      i := (i * 2) % TWO64;
      ix := ix - 1;
    }
  }

  /** The significand is normalised: its leading bit is bit 112. */
  predicate Normalised(sig: int)
  {
    TWO112 <= sig < TWO113
  }

  // ilogb of a nonzero finite number: the exponent that normalises it.
  method Ilogb(h: int, l: int) returns (ix: int)
    requires 0 <= h < INFINITE && 0 <= l < TWO64 && (h != 0 || l != 0)
    ensures -16494 <= ix <= 16383
    ensures h >= TWO48 ==> ix == h / TWO48 - 16383
    ensures h < TWO48 ==> ix < -16382 && Normalised(Join(h, l) * Pow2(-16382 - ix))
  {
    if h < TWO48 {
      if h == 0 {
        ix := ShiftToSignBit(l, -16431);
        LowWordNormalises(l, -16431 - ix);
      } else {
        ix := ShiftToSignBit(h * 0x8000, -16382);
        HighWordNormalises(h, l, -16382 - ix);
      }
    } else {
      ix := h / TWO48 - 0x3fff;
    }
  }

  lemma {:induction false} LowWordNormalises(l: int, k: nat)
    requires 0 < l && TWO63 <= l * Pow2(k) < TWO64
    ensures k <= 63 && Normalised(l * Pow2(k + 49))
  {
    Pow2Constants();
    MulMono(1, l, Pow2(k));
    if k > 63 {
      Pow2Mono(64, k);
    }
    Pow2Add(k, 49);
    Assoc(l, Pow2(k), Pow2(49));
    Pow2Add(48, 1);
  }

  lemma {:induction false} HighWordNormalises(h: int, l: int, k: nat)
    requires 0 < h < TWO48 && 0 <= l < TWO64 && TWO63 <= h * 0x8000 * Pow2(k) < TWO64
    ensures 1 <= k <= 48 && Normalised(Join(h, l) * Pow2(k))
  {
    WithoutShift(h, Pow2(k));
    ShiftIsSmall(h, k);
    TwoPowers49(k);
    JoinNormalises(h, l, Pow2(k), Pow2(49 - k));
  }

  lemma {:induction false} TwoPowers49(k: nat)
    requires k <= 48
    ensures Pow2(49 - k) * Pow2(k) == 2 * TWO48
  {
    Pow2Constants();
    Pow2Add(49 - k, k);
    Pow2Add(1, 48);
  }

  lemma WithoutShift(h: int, p: int)
    requires TWO63 <= h * 0x8000 * p < TWO64
    ensures TWO48 <= h * p < 2 * TWO48
  {
    assert h * 0x8000 * p == 0x8000 * (h * p);
  }

  lemma {:induction false} ShiftIsSmall(h: int, k: nat)
    requires 0 < h < TWO48 && TWO48 <= h * Pow2(k) < 2 * TWO48
    ensures 1 <= k <= 48
  {
    MulMono(1, h, Pow2(k));
    Pow2Constants();
    if k > 48 {
      Pow2Mono(48, k);
    }
  }

  lemma JoinNormalises(h: int, l: int, p: int, q: int)
    requires 0 <= l < TWO64 && 0 < p && TWO48 <= h * p < 2 * TWO48 && q * p == 2 * TWO48
    ensures Normalised(Join(h, l) * p)
  {
    NextMultiple(h, p, q);
    Distribute(h * TWO64, l, p);
    Distribute(h, 1, p);
    MulMono(l + 1, TWO64, p);
    Distribute(l, 1, p);
    assert h * TWO64 * p == TWO64 * (h * p);
  }

  // A multiple of p below another multiple of p is at least p below it.
  lemma NextMultiple(h: int, p: int, m: int)
    requires 0 < p && h * p < m * p
    ensures (h + 1) * p <= m * p
  {
    if h >= m {
      MulMono(m, h, p);
    }
    MulMono(h + 1, m, p);
  }

  // The operand's significand in two words, leading bit at bit 112.
  method SetUp(h: int, l: int, ix: int) returns (hx: int, lx: int)
    requires 0 <= h < INFINITE && 0 <= l < TWO64 && -16494 <= ix
    requires h >= TWO48 ==> ix == h / TWO48 - 16383
    requires h < TWO48 ==> ix < -16382 && Normalised(Join(h, l) * Pow2(-16382 - ix))
    ensures 0 <= hx && 0 <= lx < TWO64 && Normalised(Join(hx, lx)) && Denotes(Join(hx, lx), ix, Mag(h, l))
  {
    if ix >= -16382 {
      Pow2Constants();
      hx, lx := OrShifted(1, 48, h % TWO48), l;
      NormalDenotes(TWO112 + Join(h % TWO48, l), h / TWO48);
    } else {
      hx, lx := ShiftToNormal(h, l, -16382 - ix);
      SubnormalDenotes(Join(h, l), -16382 - ix);
    }
  }

  method ShiftToNormal(h: int, l: int, n: int) returns (hx: int, lx: int)
    requires 0 <= h && 0 <= l < TWO64 && 1 <= n && Normalised(Join(h, l) * Pow2(n))
    ensures 0 <= hx && 0 <= lx < TWO64 && Join(hx, lx) == Join(h, l) * Pow2(n)
  {
    if n <= 63 {
      ShiftWords(h, l, n);
      hx, lx := OrShifted(h, n, l / Pow2(64 - n)), (l * Pow2(n)) % TWO64;
    } else {
      ShiftLowWord(h, l, n);
      hx, lx := l * Pow2(n - 64), 0;
    }
  }

  lemma {:induction false} SubnormalDenotes(m: int, n: nat)
    requires n <= 112
    ensures Denotes(m * Pow2(n), -16382 - n, m)
  {
    Pow2Constants();
    Pow2Add(n, 112 - n);
    Assoc(m, Pow2(n), Pow2(112 - n));
  }

  lemma NormalDenotes(sig: int, e: int)
    requires 1 <= e
    ensures Denotes(sig, e - 16383, sig * Pow2(e - 1))
  {
    Pow2Constants();
    Pow2Add(e - 1, 112);
    Assoc(sig, Pow2(e - 1), TWO112);
  }

  lemma {:induction false} ShiftWords(h: int, l: int, n: nat)
    requires 0 <= l < TWO64 && 1 <= n <= 63
    ensures 0 <= l / Pow2(64 - n) < Pow2(n)
    ensures Join(OrShifted(h, n, l / Pow2(64 - n)), (l * Pow2(n)) % TWO64) == Join(h, l) * Pow2(n)
  {
    Pow2Constants();
    Pow2Add(64 - n, n);
    SplitWord(l, Pow2(64 - n), Pow2(n));
    JoinShifted(h, l, Pow2(n), l / Pow2(64 - n), (l * Pow2(n)) % TWO64);
  }

  // A word splits at a bit: the high part overflows into the next word, the low part stays.
  lemma SplitWord(l: int, q: int, p: int)
    requires 0 <= l < TWO64 && 0 < q && 0 < p && q * p == TWO64
    ensures 0 <= l / q < p && 0 <= l % q
    ensures l * p == (l / q) * TWO64 + (l * p) % TWO64 && (l * p) % TWO64 == (l % q) * p
  {
    var a, b := l / q, l % q;
    EuclideanBounds(l, q);
    if a >= p {
      MulMono(p, a, q);
    }
    Distribute(a * q, b, p);
    Assoc(a, q, p);
    MulMono(b + 1, q, p);
    Distribute(b, 1, p);
    assert 0 <= b * p;
    DivModUnique(l * p, TWO64, a, b * p);
  }

  lemma JoinShifted(h: int, l: int, p: int, carry: int, low: int)
    requires l * p == carry * TWO64 + low
    ensures Join(h * p + carry, low) == Join(h, l) * p
  {
    Distribute(h * TWO64, l, p);
    assert h * TWO64 * p == h * p * TWO64;
  }

  lemma {:induction false} ShiftLowWord(h: int, l: int, n: nat)
    requires 0 <= h && 0 <= l && 64 <= n && Join(h, l) * Pow2(n) < TWO113
    ensures h == 0 && Join(l * Pow2(n - 64), 0) == Join(h, l) * Pow2(n)
  {
    Pow2Constants();
    Pow2Add(n - 64, 64);
    Pow2Mono(64, n);
    if h >= 1 {
      MulMono(TWO64, Join(h, l), Pow2(n));
    }
    Assoc(l, Pow2(n - 64), TWO64);
  }

  // ---------- fixed-point remainder ----------

  // n doublings with a subtraction whenever it fits: the remainder of the dividend shifted by n.
  // zero tells that the loop hit zero and left early.
  method Reduce(hx0: int, lx0: int, hy: int, ly: int, n0: nat) returns (hx: int, lx: int, zero: bool)
    requires 0 <= hx0 && 0 <= lx0 < TWO64 && 0 <= hy && 0 <= ly < TWO64
    requires Normalised(Join(hx0, lx0)) && Normalised(Join(hy, ly))
    ensures zero ==> (Join(hx0, lx0) * Pow2(n0)) % Join(hy, ly) == 0
    ensures !zero ==> 0 <= hx && 0 <= lx < TWO64 &&
                      Join(hx, lx) == (Join(hx0, lx0) * Pow2(n0)) % Join(hy, ly)
  {
    ghost var Y, T := Join(hy, ly), Join(hx0, lx0) * Pow2(n0);
    ghost var k := 0;
    var n := n0;
    hx, lx, zero := hx0, lx0, false;
    while n != 0
      invariant 0 <= n <= n0 && 0 <= hx && 0 <= lx < TWO64 && Join(hx, lx) < 2 * Y
      invariant Join(hx, lx) * Pow2(n) + k * Y == T
    {
      n := n - 1;
      SubtractJoins(hx, lx, hy, ly);
      var (hz, lz) := Subtract(hx, lx, hy, ly);
      if hz < 0 {
        StepKeeps(Join(hx, lx), 0, n, k, Y, T);
        DoubleJoins(hx, lx);
        var (h2, l2) := Double(hx, lx);
        hx, lx := h2, l2;
      } else {
        StepKeeps(Join(hx, lx), 1, n, k, Y, T);
        k := k + Pow2(n + 1);
        if hz == 0 && lz == 0 {
          ModOfMultiple(k, Y);
          zero := true;
          return;
        }
        DoubleJoins(hz, lz);
        var (h2, l2) := Double(hz, lz);
        hx, lx := h2, l2;
      }
    }
    SubtractJoins(hx, lx, hy, ly);
    var (hz, lz) := Subtract(hx, lx, hy, ly);
    if hz >= 0 {
      Distribute(k, 1, Y);
      k := k + 1;
      hx, lx := hz, lz;
    }
    DivModUnique(T, Y, k, Join(hx, lx));
  }

  // One step, subtracting the divisor s times before doubling, keeps the residue class.
  lemma StepKeeps(cur: int, s: int, n: nat, k: int, Y: int, T: int)
    requires cur * Pow2(n + 1) + k * Y == T
    ensures (2 * (cur - s * Y)) * Pow2(n) + (k + s * Pow2(n + 1)) * Y == T
  {
    var p := Pow2(n);
    assert (2 * (cur - s * Y)) * p == (cur - s * Y) * (2 * p);
    Distribute(cur, s * Y, 2 * p);
    Distribute(k, s * (2 * p), Y);
    assert (s * Y) * (2 * p) == (s * (2 * p)) * Y;
  }

  // ---------- back to a floating-point number ----------

  method Renormalise(hx0: int, lx0: int, iy0: int, ghost m: int) returns (hx: int, lx: int, iy: int)
    requires 0 <= hx0 && 0 <= lx0 < TWO64 && 0 < Join(hx0, lx0) < TWO113
    requires m >= 1 && Denotes(Join(hx0, lx0), iy0, m)
    ensures 0 <= hx && 0 <= lx < TWO64 && Normalised(Join(hx, lx))
    ensures iy <= iy0 && Denotes(Join(hx, lx), iy, m)
  {
    hx, lx, iy := hx0, lx0, iy0;
    while hx < TWO48
      invariant 0 <= hx && 0 <= lx < TWO64 && 0 < Join(hx, lx) < TWO113
      invariant iy <= iy0 && Denotes(Join(hx, lx), iy, m)
      decreases TWO113 - Join(hx, lx)
    {
      DoubleDenotes(Join(hx, lx), iy, m);
      DoubleJoins(hx, lx);
      var (h2, l2) := Double(hx, lx);
      hx, lx := h2, l2;
      iy := iy - 1;
    }
  }

  lemma DoubleDenotes(sig: int, i: int, m: int)
    requires m >= 1 && 0 < sig < TWO112 && Denotes(sig, i, m)
    ensures Denotes(2 * sig, i - 1, m)
  {
    assert i + 16494 != 0;
    assert (2 * sig) * Pow2(i - 1 + 16494) == sig * Pow2(i + 16494);
  }

  // Normal or subnormal encoding of a normalised significand.
  method Encode(hx: int, lx: int, iy: int, negative: bool, ghost m: int) returns (w: Words)
    requires 0 <= hx && 0 <= lx < TWO64 && Normalised(Join(hx, lx))
    requires -16494 <= iy <= 16383 && Denotes(Join(hx, lx), iy, m)
    ensures w.Valid() && w.Finite() && w.Negative() == negative && Mag(w.Abs(), w.low) == m
  {
    var sx := if negative then TWO63 else 0;
    if iy >= -16382 {
      Pow2Constants();
      var h := OrShifted(iy + 16383, 48, hx - TWO48);
      NormalEncoding(hx, lx, iy, m);
      w := Words(h + sx, lx);
    } else {
      var h, l := SubnormalWords(hx, lx, -16382 - iy, m);
      w := Words(h + sx, l);
    }
  }

  lemma {:induction false} NormalEncoding(hx: int, lx: int, iy: int, m: int)
    requires 0 <= hx && 0 <= lx < TWO64 && Normalised(Join(hx, lx))
    requires -16382 <= iy <= 16383 && Denotes(Join(hx, lx), iy, m)
    ensures var h := (iy + 16383) * TWO48 + (hx - TWO48); 0 <= h < INFINITE && Mag(h, lx) == m
  {
    var h := (iy + 16383) * TWO48 + (hx - TWO48);
    assert h / TWO48 == iy + 16383 && h % TWO48 == hx - TWO48;
    NormalDenotes(Join(hx, lx), iy + 16383);
    assert Mag(h, lx) == Join(hx, lx) * Pow2(iy + 16382);
    Cancel(Mag(h, lx), m, TWO112);
  }

  method SubnormalWords(hx: int, lx: int, n: int, ghost m: int) returns (h: int, l: int)
    requires 0 <= hx && 0 <= lx < TWO64 && Normalised(Join(hx, lx)) && 1 <= n <= 112
    requires m * TWO112 == Join(hx, lx) * Pow2(112 - n)
    ensures 0 <= h < TWO48 && 0 <= l < TWO64 && Mag(h, l) == m
  {
    ExactShift(Join(hx, lx), n, m);
    if n <= 48 {
      RightShiftLow(hx, lx, n);
      l := OrShifted(hx % Pow2(n), 64 - n, lx / Pow2(n));
      h := hx / Pow2(n);
      EuclideanBounds(hx, Pow2(n));
    } else if n <= 63 {
      HighWordVanishes(hx, n);
      RightShiftLow(hx, lx, n);
      l := OrShifted(hx, 64 - n, lx / Pow2(n));
      h := 0;
    } else {
      RightShiftHigh(hx, lx, n);
      l := hx / Pow2(n - 64);
      h := 0;
    }
    SmallWords(h, l, m);
  }

  lemma {:induction false} HighWordVanishes(h: int, n: nat)
    requires 0 <= h < 2 * TWO48 && 49 <= n
    ensures h / Pow2(n) == 0 && h % Pow2(n) == h
  {
    Pow2Constants();
    Pow2Mono(48, n);
    DivModUnique(h, Pow2(n), 0, h);
  }

  // The number is a multiple of its unit, so nothing is shifted out.
  lemma ExactShift(sig: int, n: nat, m: int)
    requires 1 <= n <= 112 && m * TWO112 == sig * Pow2(112 - n) && Normalised(sig)
    ensures sig == m * Pow2(n) && sig / Pow2(n) == m && 0 < m < TWO112
  {
    Pow2Constants();
    Pow2Add(n, 112 - n);
    Assoc(m, Pow2(n), Pow2(112 - n));
    Cancel(m * Pow2(n), sig, Pow2(112 - n));
    ModOfMultiple(m, Pow2(n));
    Pow2Mono(0, n);
    Halved(m, Pow2(n));
  }

  lemma Halved(m: int, p: int)
    requires 2 <= p && TWO112 <= m * p < TWO113
    ensures 0 < m < TWO112
  {
    if m <= 0 {
      MulMono(m, 0, p);
    } else {
      MulMono(2, p, m);
    }
  }

  lemma Cancel(a: int, b: int, p: int)
    requires 0 < p && a * p == b * p
    ensures a == b
  {
    Distribute(a, b, p);
    if a != b {
      MultipleIsLarge(a - b, p);
    }
  }

  lemma {:induction false} RightShiftLow(h: int, l: int, n: nat)
    requires 0 <= h && 0 <= l < TWO64 && 1 <= n <= 63
    ensures 0 <= l / Pow2(n) < Pow2(64 - n)
    ensures Join(h, l) / Pow2(n) == Join(h / Pow2(n), OrShifted(h % Pow2(n), 64 - n, l / Pow2(n)))
    ensures 0 <= OrShifted(h % Pow2(n), 64 - n, l / Pow2(n)) < TWO64
  {
    Pow2Constants();
    Pow2Add(64 - n, n);
    RightShift(h, l, Pow2(n), Pow2(64 - n));
  }

  // Shifting right moves the low bits of the high word to the top of the low word.
  lemma RightShift(h: int, l: int, p: int, q: int)
    requires 0 <= h && 0 <= l < TWO64 && 0 < p && 0 < q && q * p == TWO64
    ensures 0 <= l / p < q
    ensures Join(h, l) / p == Join(h / p, (h % p) * q + l / p)
    ensures 0 <= (h % p) * q + l / p < TWO64
  {
    EuclideanBounds(l, p);
    EuclideanBounds(h, p);
    var a, b, c, d := l / p, l % p, h / p, h % p;
    if a >= q {
      MulMono(q, a, p);
    }
    MulMono(d + 1, p, q);
    Distribute(d, 1, q);
    assert 0 <= d * q;
    RightShiftSum(a, b, c, d, p, q);
    DivModUnique(Join(h, l), p, Join(c, d * q + a), b);
  }

  lemma RightShiftSum(a: int, b: int, c: int, d: int, p: int, q: int)
    requires q * p == TWO64
    ensures Join(c * p + d, a * p + b) == Join(c, d * q + a) * p + b
  {
    Assoc(d, q, p);
    Distribute(c * TWO64, d * q + a, p);
    Distribute(d * q, a, p);
    assert c * p * TWO64 == c * TWO64 * p;
  }

  lemma {:induction false} RightShiftHigh(h: int, l: int, n: nat)
    requires 0 <= h < 2 * TWO48 && 0 <= l < TWO64 && 64 <= n <= 112
    ensures 0 <= h / Pow2(n - 64) < TWO64
    ensures Join(h, l) / Pow2(n) == Join(0, h / Pow2(n - 64))
  {
    Pow2Constants();
    Pow2Add(64, n - 64);
    EuclideanBounds(h, Pow2(n - 64));
    DivTwice(Join(h, l), TWO64, Pow2(n - 64));
    DivModUnique(Join(h, l), TWO64, h, l);
  }

  lemma SmallWords(h: int, l: int, m: int)
    requires 0 <= h && 0 <= l < TWO64 && Join(h, l) == m && m < TWO112
    ensures h < TWO48 && Mag(h, l) == m
  {
  }

  // ---------- fmodq ----------

  // The remainder of the significands, at the divisor's exponent, denotes the remainder.
  lemma RemainderDenotes(X: int, ix: int, mx: int, Y: int, iy: int, my: int)
    requires Denotes(X, ix, mx) && Denotes(Y, iy, my) && iy <= ix && 0 < Y && 0 < my
    ensures Denotes((X * Pow2(ix - iy)) % Y, iy, mx % my)
  {
    var T, P := X * Pow2(ix - iy), Pow2(iy + 16494);
    Pow2Add(ix - iy, iy + 16494);
    Assoc(X, Pow2(ix - iy), P);
    DivModScaled(mx, my, TWO112);
    DivModScaled(T, Y, P);
  }

  lemma LargerExponent(X: int, ix: int, mx: int, Y: int, iy: int, my: int)
    requires Denotes(X, ix, mx) && Denotes(Y, iy, my) && Normalised(X) && Normalised(Y) && mx >= my
    ensures iy <= ix
  {
    if ix < iy {
      Pow2Mono(ix + 16494, iy + 16494);
      MulMono(X + 1, TWO113, Pow2(ix + 16494));
      MulMono(TWO112, Y, Pow2(iy + 16494));
      Distribute(X, 1, Pow2(ix + 16494));
      MulMono(my, mx, TWO112);
    }
  }

  // mcs_fl_Zero[sign]
  function SignedZero(negative: bool): (w: Words)
    ensures w.Valid() && w.Finite() && w.Negative() == negative && Mag(w.Abs(), w.low) == 0
  {
    Words(if negative then TWO63 else 0, 0)
  }

  // hy | ((ly | -ly) >> 63): the low bit tells whether any low bit is set
  function OrAnyLow(h: int, l: int): (r: int)
  {
    if l != 0 && h % 2 == 0 then h + 1 else h
  }

  // For all finite x and all finite nonzero y, subnormal ones included, the result has x's sign and
  // its magnitude is exactly |x| mod |y|.
  method Fmodq(x: Words, y: Words) returns (r: Result)
    requires x.Valid() && y.Valid()
    ensures !x.Finite() || y.NaN() || (y.Abs() == 0 && y.low == 0) <==> r == NotANumber
    ensures x.Finite() && !y.Finite() && !y.NaN() ==> r == Number(x)
    ensures x.Finite() && y.Finite() && r.Number? ==>
              && r.w.Valid() && r.w.Finite() && r.w.Negative() == x.Negative()
              && 0 < Mag(y.Abs(), y.low)
              && Mag(r.w.Abs(), r.w.low) == Mag(x.Abs(), x.low) % Mag(y.Abs(), y.low)
  {
    var hx, lx, hy, ly := x.Abs(), x.low, y.Abs(), y.low;
    if (hy == 0 && ly == 0) || hx >= INFINITE || OrAnyLow(hy, ly) > INFINITE {
      return NotANumber;
    }
    if y.Finite() {
      MagPositive(hy, ly);
    }
    if hx <= hy {
      if hx < hy || lx < ly {
        if y.Finite() {
          MagOrder(hx, lx, hy, ly);
          DivModUnique(Mag(hx, lx), Mag(hy, ly), 0, Mag(hx, lx));
        }
        return Number(x);
      }
      if lx == ly {
        DivModUnique(Mag(hx, lx), Mag(hy, ly), 1, 0);
        return Number(SignedZero(x.Negative()));
      }
    }
    MagOrder(hy, ly, hx, lx);
    var w := Remainder(hx, lx, hy, ly, x.Negative());
    r := Number(w);
  }

  lemma MagPositive(h: int, l: int)
    requires 0 <= h < INFINITE && 0 <= l < TWO64 && (h != 0 || l != 0)
    ensures 0 < Mag(h, l)
  {
    MagOrder(0, 0, h, l);
  }

  // The general case |x| > |y| > 0 of two finite numbers.
  method Remainder(hx0: int, lx0: int, hy0: int, ly0: int, negative: bool) returns (w: Words)
    requires 0 <= hx0 < INFINITE && 0 <= lx0 < TWO64 && 0 <= hy0 < INFINITE && 0 <= ly0 < TWO64
    requires hy0 != 0 || ly0 != 0
    requires 0 < Mag(hy0, ly0) < Mag(hx0, lx0)
    ensures w.Valid() && w.Finite() && w.Negative() == negative
    ensures Mag(w.Abs(), w.low) == Mag(hx0, lx0) % Mag(hy0, ly0)
  {
    ghost var mx, my := Mag(hx0, lx0), Mag(hy0, ly0);
    var ix := Ilogb(hx0, lx0);
    var iy := Ilogb(hy0, ly0);
    var hx, lx := SetUp(hx0, lx0, ix);
    var hy, ly := SetUp(hy0, ly0, iy);
    ghost var X, Y := Join(hx, lx), Join(hy, ly);
    LargerExponent(X, ix, mx, Y, iy, my);
    RemainderDenotes(X, ix, mx, Y, iy, my);
    var hr, lr, zero := Reduce(hx, lx, hy, ly, ix - iy);
    if zero || (hr == 0 && lr == 0) {
      return SignedZero(negative);
    }
    ghost var m := mx % my;
    NonzeroRemainder(Join(hr, lr), iy, m);
    var h2, l2, i2 := Renormalise(hr, lr, iy, m);
    w := Encode(h2, l2, i2, negative, m);
  }

  lemma NonzeroRemainder(sig: int, i: int, m: int)
    requires 0 < sig && Denotes(sig, i, m) && 0 <= m
    ensures 1 <= m
  {
    MulMono(1, sig, Pow2(i + 16494));
  }
}
