/** Decimal digit strings: their value, the canonical digits of a number
    (printf "%lu"), fixed-width digits (printf "%0*lu") and decimal rounding. */
module Digits {
  import opened MachineInts

  predicate IsDigit(c: char)
  {
    '0' <= c <= '9'
  }

  predicate AllDigits(s: string)
  {
    forall i :: 0 <= i < |s| ==> IsDigit(s[i])
  }

  function DigitVal(c: char): (d: int)
    requires IsDigit(c)
    ensures 0 <= d <= 9
  {
    c as int - '0' as int
  }

  function DigitChar(d: int): (c: char)
    requires 0 <= d <= 9
    ensures IsDigit(c) && DigitVal(c) == d
  {
    ('0' as int + d) as char
  }

  /** The number a digit string denotes; the empty string denotes 0. */
  function Val(s: string): (n: int)
    requires AllDigits(s)
    ensures 0 <= n
  {
    if |s| == 0 then 0 else 10 * Val(s[..|s| - 1]) + DigitVal(s[|s| - 1])
  }

  // The digits have the codes 48 to 57.
  lemma LastDigitCounts(s: string, c: char)
    requires AllDigits(s) && 48 <= c as int <= 57
    ensures AllDigits(s + [c]) && Val(s + [c]) == 10 * Val(s) + (c as int - 48)
  {
    ValSnoc(s, c);
  }

  // The last digit.
  lemma ValSnoc(s: string, c: char)
    requires AllDigits(s) && '0' <= c <= '9'
    ensures AllDigits(s + [c]) && Val(s + [c]) == 10 * Val(s) + DigitVal(c)
  {
    assert (s + [c])[..|s|] == s;
  }

  lemma {:induction false} ValAppend(a: string, b: string)
    requires AllDigits(a) && AllDigits(b)
    ensures AllDigits(a + b)
    ensures Val(a + b) == Val(a) * Pow10(|b|) + Val(b)
  {
    if |b| == 0 {
      assert a + b == a;
    } else {
      var b', c := b[..|b| - 1], b[|b| - 1];
      ValAppend(a, b');
      ValSnoc(b', c);
      ValSnoc(a + b', c);
      assert b == b' + [c] && a + b == a + b' + [c];
      ShiftIn(Val(a), Pow10(|b'|), Val(b'), DigitVal(c));
    }
  }

  lemma ShiftIn(x: int, p: int, y: int, d: int)
    ensures 10 * (x * p + y) + d == x * (10 * p) + (10 * y + d)
  {
  }

  lemma {:induction false} ValBound(s: string)
    requires AllDigits(s)
    ensures Val(s) < Pow10(|s|)
  {
    if |s| > 0 {
      ValBound(s[..|s| - 1]);
    }
  }

  // A nonempty string that does not start with '0' denotes a number of that many digits.
  lemma {:induction false} ValLowerBound(s: string)
    requires AllDigits(s) && |s| > 0 && s[0] != '0'
    ensures Val(s) >= Pow10(|s| - 1)
  {
    assert s == [s[0]] + s[1..];
    ValAppend([s[0]], s[1..]);
    assert Val([s[0]]) == DigitVal(s[0]);
    MulMono(1, DigitVal(s[0]), Pow10(|s| - 1));
  }

  function Zeros(n: nat): (s: string)
    ensures |s| == n
  {
    if n == 0 then [] else Zeros(n - 1) + ['0']
  }

  // ---------- canonical and fixed-width digits ----------

  /** The digits of n without leading zeros; "0" for zero. */
  function Dec(n: nat): (s: string)
    ensures |s| > 0 && AllDigits(s)
  {
    if n < 10 then [DigitChar(n)] else Dec(n / 10) + [DigitChar(n % 10)]
  }

  /** Exactly w digits denoting n modulo 10^w. */
  function Fixed(n: nat, w: nat): (s: string)
    ensures |s| == w && AllDigits(s)
  {
    if w == 0 then [] else Fixed(n / 10, w - 1) + [DigitChar(n % 10)]
  }

  lemma {:induction false} ValDec(n: nat)
    ensures Val(Dec(n)) == n
  {
    if n < 10 {
      assert Dec(n)[..0] == [];
    } else {
      ValDec(n / 10);
      assert Dec(n)[..|Dec(n)| - 1] == Dec(n / 10);
    }
  }

  lemma {:induction false} NoLeadingZero(n: nat)
    requires n > 0
    ensures Dec(n)[0] != '0'
  {
    if n >= 10 {
      NoLeadingZero(n / 10);
    }
  }

  lemma {:induction false} ValFixed(n: nat, w: nat)
    requires n < Pow10(w)
    ensures Val(Fixed(n, w)) == n
  {
    if w > 0 {
      DigitStep(n, Pow10(w - 1));
      ValFixed(n / 10, w - 1);
      ValSnoc(Fixed(n / 10, w - 1), DigitChar(n % 10));
    }
  }

  lemma DigitStep(n: nat, p: int)
    requires n < 10 * p
    ensures n / 10 < p && 10 * (n / 10) + n % 10 == n
  {
  }

  lemma {:induction false} DecLength(n: nat, w: nat)
    requires w > 0
    ensures |Dec(n)| <= w <==> n < Pow10(w)
  {
    if n >= 10 {
      if w == 1 {
        assert Pow10(1) == 10;
      } else {
        DecLength(n / 10, w - 1);
      }
    } else {
      Pow10Mono(1, w);
      assert Pow10(1) == 10;
    }
  }

  // printf's "%0*lu" pads the canonical digits with zeros to the width.
  lemma {:induction false} PaddedIsFixed(n: nat, w: nat)
    requires w > 0 && n < Pow10(w)
    ensures |Dec(n)| <= w
    ensures Zeros(w - |Dec(n)|) + Dec(n) == Fixed(n, w)
  {
    DecLength(n, w);
    if n < 10 {
      FixedZero(w - 1);
    } else {
      PaddedIsFixed(n / 10, w - 1);
      PaddedStep(n, w, Zeros(w - 1 - |Dec(n / 10)|));
    }
  }

  lemma {:induction false} PaddedStep(n: nat, w: nat, zeros: string)
    requires n >= 10 && w > 1 && zeros + Dec(n / 10) == Fixed(n / 10, w - 1)
    ensures |Dec(n)| == |Dec(n / 10)| + 1 && zeros + Dec(n) == Fixed(n, w)
  {
    JoinLast(zeros, Dec(n / 10), DigitChar(n % 10));
  }

  lemma JoinLast(a: string, b: string, c: char)
    ensures a + (b + [c]) == a + b + [c]
  {
  }

  lemma {:induction false} FixedZero(w: nat)
    ensures Fixed(0, w) == Zeros(w)
  {
    if w > 0 {
      FixedZero(w - 1);
    }
  }

  // Printing in limbs: the high part canonically, the low part in fixed width.
  lemma {:induction false} DecSplit(high: nat, low: nat, w: nat)
    requires high > 0 && low < Pow10(w)
    ensures Dec(high * Pow10(w) + low) == Dec(high) + Fixed(low, w)
  {
    if w > 0 {
      var n := high * Pow10(w) + low;
      LastDigit(high, Pow10(w - 1), low);
      DecSplit(high, low / 10, w - 1);
      JoinLast(Dec(high), Fixed(low / 10, w - 1), DigitChar(low % 10));
    } else {
      assert Dec(high) + [] == Dec(high);
    }
  }

  lemma {:induction false} LastDigit(high: nat, p: int, low: nat)
    requires high > 0 && p > 0
    ensures var n := high * (10 * p) + low; n >= 10 && n / 10 == high * p + low / 10 && n % 10 == low % 10
  {
    Assoc(high, 10, p);
    assert high * (10 * p) == 10 * (high * p);
    MulMono(1, high, p);
  }

  // ---------- rounding half away from zero on magnitudes ----------

  /** n/d rounded to the nearest integer, ties upwards. */
  function RoundHalfUp(n: nat, d: int): (r: nat)
    requires 0 < d
    ensures 2 * n - d < 2 * (r * d) <= 2 * n + d
  {
    var q := (2 * n + d) / (2 * d);
    assert 2 * n + d == q * (2 * d) + (2 * n + d) % (2 * d);
    assert q * (2 * d) == 2 * (q * d);
    q
  }

  // The bounds above determine the rounded value.
  lemma {:induction false} RoundHalfUpUnique(n: nat, d: int, r: int)
    requires 0 < d && 2 * n - d < 2 * (r * d) <= 2 * n + d
    ensures RoundHalfUp(n, d) == r
  {
    var q := RoundHalfUp(n, d);
    assert (q - r) * d == q * d - r * d;
    if q != r {
      MultipleIsLarge(q - r, d);
    }
  }

  lemma {:induction false} RoundHalfUpScaled(n: nat, d: int, p: int)
    requires 0 < d && 0 < p
    ensures 0 < d * p && RoundHalfUp(n * p, d * p) == RoundHalfUp(n, d)
  {
    Doubled(n, d, p);
    DivModScaled(2 * n + d, 2 * d, p);
  }

  lemma Doubled(n: int, d: int, p: int)
    requires 0 < d && 0 < p
    ensures (2 * n + d) * p == 2 * (n * p) + d * p && (2 * d) * p == 2 * (d * p) && 0 < d * p
  {
  }

  /** n * 10^k rounded half away from zero. */
  function RoundScaled(n: nat, k: int): (r: nat)
  {
    if k >= 0 then n * Pow10(k) else RoundHalfUp(n, Pow10(-k))
  }

  // Appending t zeros and lowering the exponent by t is the same number.
  lemma {:induction false} RoundScaledShift(n: nat, k: int, t: nat)
    ensures RoundScaled(n * Pow10(t), k - t) == RoundScaled(n, k)
  {
    if k >= t {
      Pow10Add(t, k - t);
      Assoc(n, Pow10(t), Pow10(k - t));
    } else if k >= 0 {
      Pow10Add(k, t - k);
      Assoc(n, Pow10(k), Pow10(t - k));
      RoundExact(n * Pow10(k), Pow10(t - k));
    } else {
      Pow10Add(-k, t);
      RoundHalfUpScaled(n, Pow10(-k), Pow10(t));
    }
  }

  lemma {:induction false} RoundExact(n: nat, d: int)
    requires 0 < d
    ensures 0 <= n * d && RoundHalfUp(n * d, d) == n
  {
    RoundHalfUpUnique(n * d, d, n);
  }

  /** The rounding digit decides: what is left after dropping the last m digits. */
  function Dropped(s: string, m: nat): (r: nat)
    requires AllDigits(s) && 0 < m
  {
    if m > |s| then 0
    else Val(s[..|s| - m]) + if s[|s| - m] >= '5' then 1 else 0
  }

  lemma {:induction false} DroppedIsRounded(s: string, m: nat)
    requires AllDigits(s) && 0 < m
    ensures Dropped(s, m) == RoundHalfUp(Val(s), Pow10(m))
  {
    if m > |s| {
      ValBound(s);
      Pow10Mono(|s|, m - 1);
      RoundHalfUpUnique(Val(s), Pow10(m), 0);
    } else {
      var a, c, b := s[..|s| - m], s[|s| - m], s[|s| - m + 1..];
      assert s == a + ([c] + b);
      ValSplit(a, c, b);
      ValBound(b);
      RoundingDigit(Val(a), DigitVal(c), Val(b), Pow10(m - 1));
      RoundHalfUpUnique(Val(s), Pow10(m), Val(a) + if c >= '5' then 1 else 0);
    }
  }

  lemma ValSplit(a: string, c: char, b: string)
    requires AllDigits(a) && IsDigit(c) && AllDigits(b)
    ensures AllDigits(a + ([c] + b))
    ensures Val(a + ([c] + b)) == Val(a) * Pow10(|b| + 1) + (DigitVal(c) * Pow10(|b|) + Val(b))
  {
    ValAppend([c], b);
    ValAppend(a, [c] + b);
    assert [] + [c] == [c];
    ValSnoc([], c);
  }

  lemma {:induction false} RoundingDigit(a: int, c: int, b: int, p: int)
    requires 0 <= c <= 9 && 0 <= b < p
    ensures var v, up := a * (10 * p) + (c * p + b), if c >= 5 then 1 else 0;
            2 * v - 10 * p < 2 * ((a + up) * (10 * p)) <= 2 * v + 10 * p
  {
    Distribute(a, if c >= 5 then 1 else 0, 10 * p);
    MulMono(c, 9, p);
    if c >= 5 {
      MulMono(5, c, p);
    } else {
      MulMono(c, 4, p);
    }
  }
}
