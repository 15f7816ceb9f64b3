/** Printing decimals: limb-wise output of 128-bit values into a fixed buffer, the narrow printer,
    and the round trip through the literal converter
    (datatypes/mcs_decimal.cpp, datatypes/mcs_int128.cpp). */
module DecimalPrint {
  import opened MachineInts
  import opened Digits
  import opened DataConditions
  import opened LiteralGrammar
  import opened NumericLiterals
  import opened Decimals

  const MAXLENGTH16BYTES := 42
  const MAXLENGTH8BYTES := 23

  // 10^19, the largest power of ten in 64 bits
  const LIMB: int := 10_000_000_000_000_000_000

  function IntegralOf(x: nat, s: nat): (q: nat)
  {
    EuclideanBounds(x, Pow10(s));
    x / Pow10(s)
  }

  function FractionOf(x: nat, s: nat): (r: nat)
    ensures r < Pow10(s)
  {
    EuclideanBounds(x, Pow10(s));
    x % Pow10(s)
  }

  /** What a decimal with unscaled value v and scale s should read. */
  function DecimalText(v: int, s: nat): (t: string)
  {
    (if v < 0 then "-" else "") + Dec(IntegralOf(Abs(v), s)) +
    (if s == 0 then "" else "." + Fixed(FractionOf(Abs(v), s), s))
  }

  // The text is a minus sign exactly for a negative number, digits without a needless leading zero and,
  // unless the scale is 0, a period and exactly s digits; the digits are those of the magnitude.
  lemma TextForm(v: int, s: nat) returns (i: string, f: string)
    ensures DecimalText(v, s) == (if v < 0 then "-" else "") + i + (if s == 0 then "" else "." + f)
    ensures AllDigits(i) && |i| > 0 && (|i| > 1 ==> i[0] != '0') && AllDigits(f) && |f| == s
    ensures Val(i) * Pow10(s) + Val(f) == if v < 0 then -v else v
  {
    var x := Abs(v);
    i, f := Dec(IntegralOf(x, s)), Fixed(FractionOf(x, s), s);
    EuclideanBounds(x, Pow10(s));
    ValDec(IntegralOf(x, s));
    ValFixed(FractionOf(x, s), s);
    if IntegralOf(x, s) > 0 {
      NoLeadingZero(IntegralOf(x, s));
    }
  }

  // A printed value, the NULL marker, the exception for a buffer that is too small, or an operation the
  // language leaves undefined.
  datatype Printed = Text(text: string) | Null | BufferOverflow | Undefined

  // ---------- the C library's formatted output ----------

  // "%0*lu"
  function Padded(n: nat, w: nat): (s: string)
  {
    if |Dec(n)| >= w then Dec(n) else Zeros(w - |Dec(n)|) + Dec(n)
  }

  // Writes s at p; the terminating NUL must fit too.
  method Sprintf(buf: array<char>, p: nat, s: string) returns (written: nat)
    requires p + |s| < buf.Length
    modifies buf
    ensures written == |s| && buf[..p + |s|] == old(buf[..p]) + s
  {
    for i := 0 to |s|
      invariant buf[..p + i] == old(buf[..p]) + s[..i]
    {
      buf[p + i] := s[i];
      assert buf[..p + i + 1] == buf[..p + i] + [s[i]];
      assert s[..i + 1] == s[..i] + [s[i]];
    }
    buf[p + |s|] := '\0';
    written := |s|;
    assert s[..|s|] == s;
  }

  // Consecutive output calls; an empty text stands for a call that is not made.
  method Sprintf3(buf: array<char>, p: nat, a: string, b: string, c: string) returns (written: nat)
    requires p + |a + b + c| < buf.Length
    modifies buf
    ensures written == |a + b + c| && buf[..p + written] == old(buf[..p]) + (a + b + c)
  {
    var n := Sprintf(buf, p, a);
    var m := Sprintf(buf, p + n, b);
    var k := Sprintf(buf, p + n + m, c);
    written := n + m + k;
    assert old(buf[..p]) + a + b + c == old(buf[..p]) + (a + b + c);
  }

  // ---------- 128-bit output ----------

  // The low 64 bits of a limb.
  function Pod(x: nat): (r: nat)
  {
    x % TWO64
  }

  /** The number three base-10^19 limbs form. */
  function FromLimbs(high: nat, mid: nat, low: nat): (n: nat)
  {
    (high * LIMB + mid) * LIMB + low
  }

  // Limbs print as the canonical digits of the number they form. The width w is 19;
  // it stays symbolic so that no digit is ever unrolled.
  lemma {:induction false} TwoLimbs(n: nat, high: nat, low: nat, b: int, w: nat)
    requires Pow10(w) == b && high > 0 && low < b && w > 0 && n == high * b + low
    ensures Dec(high) + Padded(low, w) == Dec(n)
  {
    PaddedIsFixed(low, w);
    DecSplit(high, low, w);
  }

  // The texts printed for the limbs: leading zero limbs are left out.
  function PodTexts(high: nat, mid: nat, low: nat, w: nat): (t: (string, string, string))
  {
    if high != 0 then (Dec(high), Padded(mid, w), Padded(low, w))
    else if mid != 0 then (Dec(mid), Padded(low, w), "")
    else (Dec(low), "", "")
  }

  lemma {:induction false} PodTextsPrint(high: nat, mid: nat, low: nat, w: nat)
    requires mid < LIMB && low < LIMB && Pow10(w) == LIMB && w > 0
    ensures var t := PodTexts(high, mid, low, w); t.0 + t.1 + t.2 == Dec(FromLimbs(high, mid, low))
  {
    if high != 0 {
      ThreeLimbs(high, mid, low, w);
    } else if mid != 0 {
      TwoLimbs(FromLimbs(0, mid, low), mid, low, LIMB, w);
      AddNothing(Dec(mid) + Padded(low, w));
    } else {
      AddNothing(Dec(low));
    }
  }

  lemma {:induction false} ThreeLimbs(high: nat, mid: nat, low: nat, w: nat)
    requires Pow10(w) == LIMB && high > 0 && mid < LIMB && low < LIMB && w > 0
    ensures Dec(high) + Padded(mid, w) + Padded(low, w) == Dec(FromLimbs(high, mid, low))
  {
    TwoLimbs(high * LIMB + mid, high, mid, LIMB, w);
    TwoLimbs(FromLimbs(high, mid, low), high * LIMB + mid, low, LIMB, w);
  }

  lemma AddNothing(s: string)
    ensures s + "" == s
  {
  }

  method PrintPodParts(buf: array<char>, p: nat, high: nat, mid: nat, low: nat) returns (written: nat)
    requires high < TWO64 && mid < LIMB && low < LIMB
    requires p + |Dec(FromLimbs(high, mid, low))| < buf.Length
    modifies buf
    ensures var text := Dec(FromLimbs(high, mid, low));
            written == |text| && buf[..p + written] == old(buf[..p]) + text
  {
    Pow10Constants();
    PodOf(high);
    PodOf(mid);
    PodOf(low);
    written := PrintLimbs(buf, p, Pod(high), Pod(mid), Pod(low), 19);
  }

  lemma PodOf(x: nat)
    requires x < TWO64
    ensures Pod(x) == x
  {
  }

  method PrintLimbs(buf: array<char>, p: nat, high: nat, mid: nat, low: nat, width: nat) returns (written: nat)
    requires mid < LIMB && low < LIMB && Pow10(width) == LIMB && width > 0
    requires p + |Dec(FromLimbs(high, mid, low))| < buf.Length
    modifies buf
    ensures var text := Dec(FromLimbs(high, mid, low));
            written == |text| && buf[..p + written] == old(buf[..p]) + text
  {
    PodTextsPrint(high, mid, low, width);
    var (first, second, third) := PodTexts(high, mid, low, width);
    written := Sprintf3(buf, p, first, second, third);
  }

  // TSInt128::writeIntPart
  method WriteInt128(x: nat, buf: array<char>, p: nat, buflen: nat) returns (written: nat, ok: bool)
    requires x < TWO127 && p + |Dec(x)| < buf.Length
    modifies buf
    ensures written == |Dec(x)| && buf[..p + written] == old(buf[..p]) + Dec(x)
    ensures ok <==> written < buflen
  {
    var low := x % LIMB;
    var value := x / LIMB;
    var mid := value % LIMB;
    var high := value / LIMB;
    written := PrintPodParts(buf, p, high, mid, low);
    ok := written < buflen;
  }

  // Decimal::writeIntPart: the digits left of the decimal point.
  method WriteIntPart(x: nat, scale: nat, buf: array<char>, p: nat, buflen: nat) returns (written: nat, ok: bool)
    requires x < TWO127 && scale <= 38 && p + |Dec(IntegralOf(x, scale))| < buf.Length
    modifies buf
    ensures var text := Dec(IntegralOf(x, scale));
            written == |text| && buf[..p + written] == old(buf[..p]) + text
    ensures ok <==> written < buflen
  {
    var high, mid, low := SplitIntPart(x, scale);
    written := PrintPodParts(buf, p, high, mid, low);
    ok := written < buflen;
  }

  // The three limb cases of the scale, each dividing by powers of ten that fit 64 bits.
  method SplitIntPart(x: nat, scale: nat) returns (high: nat, mid: nat, low: nat)
    requires x < TWO127 && scale <= 38
    ensures high < TWO64 && mid < LIMB && low < LIMB
    ensures FromLimbs(high, mid, low) == IntegralOf(x, scale)
  {
    IntegralByLimbs(x, scale);
    high, mid, low := 0, 0, 0;
    var intPart := x;
    match scale / 19 {
      case 2 =>
        intPart := intPart / MCS_POW_10[19];
        intPart := intPart / MCS_POW_10[19];
        low := intPart;
      case 1 =>
        intPart := intPart / MCS_POW_10[19];
        intPart := intPart / MCS_POW_10[scale % 19];
        low := intPart % LIMB;
        mid := intPart / LIMB;
      case _ =>
        intPart := intPart / MCS_POW_10[scale % 19];
        low := intPart % LIMB;
        intPart := intPart / LIMB;
        mid := intPart % LIMB;
        high := intPart / LIMB;
    }
  }

  lemma {:induction false} IntegralByLimbs(x: nat, scale: nat)
    requires x < TWO127 && scale <= 38
    ensures |MCS_POW_10| == 20 && MCS_POW_10[19] == LIMB && 0 < MCS_POW_10[scale % 19]
    ensures scale / 19 == 2 ==> IntegralOf(x, scale) == x / LIMB / LIMB < LIMB
    ensures scale / 19 == 1 ==> IntegralOf(x, scale) == x / LIMB / MCS_POW_10[scale % 19] < LIMB * LIMB
    ensures scale / 19 == 0 ==> IntegralOf(x, scale) == x / MCS_POW_10[scale % 19] <= x
  {
    Pow10Constants();
    NarrowTable(19);
    NarrowTable(scale % 19);
    var d := Pow10(scale % 19);
    if scale / 19 == 0 {
      EuclideanBounds(x, d);
    } else {
      DivTwice(x, LIMB, if scale / 19 == 1 then d else LIMB);
      Pow10Add(19, scale - 19);
      EuclideanBounds(x / LIMB, d);
    }
  }

  // The padding loop has written the zeros that "%0*lu" would.
  lemma {:induction false} PaddingComplete(frac: nat, s: nat, zeros: nat)
    requires zeros < s && frac < Pow10(s - zeros)
    requires zeros == s - 1 || frac >= Pow10(s - zeros - 1)
    ensures Zeros(zeros) + Dec(frac) == Fixed(frac, s)
  {
    Pow10Mono(s - zeros, s);
    PaddedIsFixed(frac, s);
    DecLength(frac, s - zeros);
    if zeros < s - 1 {
      DecLength(frac, s - zeros - 1);
    }
  }

  // 10^scale out of 64-bit factors
  method FractionDivisor(scale: nat) returns (scaleDivisor: int)
    requires 1 <= scale <= 38
    ensures scaleDivisor == Pow10(scale)
  {
    NarrowTable(19);
    NarrowTable(scale % 19);
    scaleDivisor := 1;
    if scale / 19 == 2 {
      Pow10Add(19, 19);
      scaleDivisor := scaleDivisor * MCS_POW_10[19];
      scaleDivisor := scaleDivisor * MCS_POW_10[19];
    } else {
      if scale / 19 == 1 {
        Pow10Add(19, scale % 19);
        scaleDivisor := scaleDivisor * MCS_POW_10[19];
      }
      scaleDivisor := scaleDivisor * MCS_POW_10[scale % 19];
    }
  }

  // The loop that emits zeros until the first significant digit.
  method WriteLeadingZeros(frac: nat, scale: nat, buf: array<char>, p: nat) returns (zeros: nat)
    requires 1 <= scale <= 38 && frac < Pow10(scale) && p + scale < buf.Length
    modifies buf
    ensures zeros < scale && buf[..p + zeros] == old(buf[..p]) + Zeros(zeros)
    ensures Zeros(zeros) + Dec(frac) == Fixed(frac, scale)
  {
    var scaleDivisor := FractionDivisor(scale);
    scaleDivisor := scaleDivisor / 10;
    zeros := 0;
    while scaleDivisor > 1 && frac / scaleDivisor == 0
      invariant 0 <= zeros < scale && scaleDivisor == Pow10(scale - zeros - 1)
      invariant frac < Pow10(scale - zeros)
      invariant buf[..p + zeros] == old(buf[..p]) + Zeros(zeros)
      decreases scaleDivisor
    {
      buf[p + zeros] := '0';
      assert buf[..p + zeros + 1] == buf[..p + zeros] + ['0'];
      BelowDivisor(frac, scaleDivisor);
      zeros := zeros + 1;
      scaleDivisor := scaleDivisor / 10;
    }
    BelowDivisor(frac, scaleDivisor);
    Pow10Mono(0, scale - zeros - 1);
    PaddingComplete(frac, scale, zeros);
  }

  // Decimal::writeFractionalPart: exactly scale digits.
  method WriteFractionalPart(x: nat, scale: nat, buf: array<char>, p: nat, buflen: nat)
    returns (written: nat, ok: bool)
    requires x < TWO127 && 1 <= scale <= 38 && p + scale < buf.Length && scale < buflen
    modifies buf
    ensures ok && written == scale && buf[..p + scale] == old(buf[..p]) + Fixed(FractionOf(x, scale), scale)
  {
    ghost var start := buf[..p];
    var scaleDivisor := FractionDivisor(scale);
    EuclideanBounds(x, scaleDivisor);
    var frac := x % scaleDivisor;
    var zeros := WriteLeadingZeros(frac, scale, buf, p);
    assert start + Zeros(zeros) + Dec(frac) == start + (Zeros(zeros) + Dec(frac));
    var n;
    n, ok := WriteInt128(frac, buf, p + zeros, buflen - zeros);
    written := zeros + n;
  }

  lemma {:induction false} BelowDivisor(x: nat, d: int)
    requires 0 < d
    ensures x / d == 0 <==> x < d
  {
    if x < d {
      DivModUnique(x, d, 0, x);
    } else {
      EuclideanBounds(x, d);
    }
  }

  // Integral and fractional digits together never exceed what 128 bits can hold.
  lemma {:induction false} DigitsFitBuffer(x: nat, s: nat)
    requires x < TWO127 && s <= 38
    ensures |Dec(IntegralOf(x, s))| <= 39 - s
  {
    Pow10Constants();
    Pow10Add(39 - s, s);
    EuclideanBounds(x, Pow10(s));
    var q := x / Pow10(s);
    if q >= Pow10(39 - s) {
      MulMono(Pow10(39 - s), q, Pow10(s));
    }
    DecLength(q, 39 - s);
  }

  // Integral digits, point and fraction digits of a magnitude, at p.
  method WriteMagnitude(x: nat, scale: nat, buf: array<char>, p: nat) returns (end: nat, ok: bool)
    requires x < TWO127 && 1 <= scale <= 38 && p <= 1 && buf.Length == MAXLENGTH16BYTES
    modifies buf
    ensures ok && end <= 41
    ensures buf[..end] == old(buf[..p]) + (Dec(IntegralOf(x, scale)) + ("." + Fixed(FractionOf(x, scale), scale)))
  {
    ghost var start := buf[..p];
    DigitsFitBuffer(x, scale);
    var n;
    n, ok := WriteIntPart(x, scale, buf, p, MAXLENGTH16BYTES - p);
    if !ok {
      return p, false;
    }
    end := p + n;
    ghost var intText := Dec(IntegralOf(x, scale));
    buf[end] := '.';
    assert buf[..end + 1] == start + intText + ".";
    end := end + 1;
    n, ok := WriteFractionalPart(x, scale, buf, end, MAXLENGTH16BYTES - end);
    if !ok {
      return end, false;
    }
    end := end + n;
    Regroup([], start, intText, ".", Fixed(FractionOf(x, scale), scale));
  }

  // Decimal::toStringTSInt128WithScale: never overflows its buffer, at most 41 characters.
  method ToStringWide(v: int, scale: nat) returns (r: Printed)
    requires -TWO127 < v < TWO127 && 1 <= scale <= 38
    ensures r == Text(DecimalText(v, scale)) && |r.text| <= 41
  {
    var buf := new char[MAXLENGTH16BYTES];
    var p := 0;
    var tempValue := v;
    if tempValue < 0 {
      buf[p] := '-';
      p := p + 1;
      tempValue := tempValue * -1;
    }
    ghost var sign := if v < 0 then "-" else "";
    assert buf[..p] == sign;
    var end, ok := WriteMagnitude(tempValue, scale, buf, p);
    if !ok || MAXLENGTH16BYTES <= end {
      return BufferOverflow;
    }
    r := Text(buf[..end]);
    Join(sign, Dec(IntegralOf(tempValue, scale)), "." + Fixed(FractionOf(tempValue, scale), scale));
    buf[end] := '\0';
  }

  // TSInt128::toString, for values other than the two markers.
  method ToStringInt128(v: int) returns (r: Printed)
    requires -TWO127 + 1 < v < TWO127
    ensures r == Text(DecimalText(v, 0)) && |r.text| <= 40
  {
    var tempValue := v;
    var buf := new char[MAXLENGTH16BYTES];
    var left := MAXLENGTH16BYTES;
    var p := 0;
    if tempValue < 0 {
      buf[p] := '-';
      p := p + 1;
      tempValue := tempValue * -1;
      left := left - 1;
    }
    left := left - 1;
    ghost var sign := if v < 0 then "-" else "";
    assert buf[..p] == sign;
    WholeNumber(tempValue);
    DigitsFitBuffer(tempValue, 0);
    var n, ok := WriteInt128(tempValue, buf, p, left);
    if !ok {
      return BufferOverflow;
    }
    r := Text(buf[..p + n]);
    AddNothing(sign + Dec(tempValue));
    buf[p + n] := '\0';
  }

  lemma WholeNumber(x: nat)
    ensures IntegralOf(x, 0) == x
  {
  }

  // ---------- 64-bit output ----------

  // snprintf: what does not fit is cut off, the untruncated length is returned.
  method Snprintf(buf: array<char>, p: nat, s: string) returns (length: nat)
    requires p < buf.Length
    modifies buf
    ensures length == |s|
    ensures p + |s| < buf.Length ==> buf[..p + |s|] == old(buf[..p]) + s
  {
    var shown := if p + |s| < buf.Length then s else s[..buf.Length - p - 1];
    var n := Sprintf(buf, p, shown);
    length := |s|;
  }

  // Decimal::toStringTSInt64: the 23-byte buffer never truncates. The smallest value has no negation in
  // 64 bits.
  method ToStringNarrow(v: int, scale: nat) returns (r: Printed)
    requires SInt64.Holds(v) && scale <= 18
    ensures r == if v == SInt64.Min() then Undefined else Text(DecimalText(v, scale))
    ensures r.Text? ==> |r.text| <= 21
  {
    if v < 0 && !SInt64.Holds(-v) {
      return Undefined;
    }
    var divisor := ScaleDivisor(scale);
    var uvalue := Abs(v);
    NarrowParts(uvalue, scale, divisor);
    var intg := uvalue / divisor;
    var frac := uvalue % divisor;
    var sign := if v < 0 then "-" else "";
    r := FormatParts(sign, intg, if scale > 0 then "." + Padded(frac, scale) else "");
  }

  lemma {:induction false} NarrowParts(x: nat, s: nat, d: int)
    requires x <= TWO63 && s <= 18 && d == Pow10(s)
    ensures x / d == IntegralOf(x, s) && x % d == FractionOf(x, s) && |Dec(IntegralOf(x, s))| <= 19 - s
    ensures s > 0 ==> Padded(FractionOf(x, s), s) == Fixed(FractionOf(x, s), s)
  {
    NarrowDigitsFit(x, s);
    if s > 0 {
      PaddedIsFixed(FractionOf(x, s), s);
    }
  }

  // The two formatted-output calls; an empty tail stands for a scale of 0.
  method FormatParts(sign: string, intg: nat, tail: string) returns (r: Printed)
    requires |sign| <= 1 && |Dec(intg)| + |tail| <= 20
    ensures r == Text(sign + Dec(intg) + tail)
  {
    var buf := new char[MAXLENGTH8BYTES];
    var head := sign + Dec(intg);
    var nbytes := Snprintf(buf, 0, head);
    assert buf[..nbytes] == head;
    var more := Snprintf(buf, nbytes, tail);
    r := Text(buf[..nbytes + more]);
  }

  lemma {:induction false} NarrowDigitsFit(x: nat, s: nat)
    requires x <= TWO63 && s <= 18
    ensures |Dec(IntegralOf(x, s))| <= 19 - s
  {
    Pow10Constants();
    Pow10Add(19 - s, s);
    EuclideanBounds(x, Pow10(s));
    var q := x / Pow10(s);
    if q >= Pow10(19 - s) {
      MulMono(Pow10(19 - s), q, Pow10(s));
    }
    DecLength(q, 19 - s);
  }

  // std::to_string
  method ToStringWhole(v: int) returns (r: Printed)
    requires SInt64.Holds(v)
    ensures r == Text(DecimalText(v, 0)) && |r.text| <= 20
  {
    var sign, digits := if v < 0 then "-" else "", Dec(Abs(v));
    r := Text(sign + digits);
    WholeNumber(Abs(v));
    NarrowDigitsFit(Abs(v), 0);
    AddNothing(sign + digits);
  }

  // ---------- dispatch and round trip ----------

  /** The value Decimal::toString shows. */
  function Shown(d: Decimal, hasTSInt128: bool): (v: int)
  {
    if hasTSInt128 || d.IsWide() then d.s128Value else d.value
  }

  method ToString(d: Decimal, hasTSInt128: bool) returns (r: Printed)
    requires SInt64.Holds(d.value) && SInt128.Holds(d.s128Value)
    requires 0 <= d.scale <= if hasTSInt128 || d.IsWide() then 38 else 18
    ensures r == if d.s128Value == NULL_VALUE then Null
                 else if (hasTSInt128 || d.IsWide()) && d.scale == 0 && d.s128Value == EMPTY_VALUE then Text("EMPTY")
                 else if !hasTSInt128 && !d.IsWide() && d.scale > 0 && d.value == SInt64.Min() then Undefined
                 else Text(DecimalText(Shown(d, hasTSInt128), d.scale))
    ensures r.Text? ==> |r.text| <= 41
  {
    if d.s128Value == NULL_VALUE {
      return Null;
    }
    if hasTSInt128 || d.IsWide() {
      if d.scale != 0 {
        r := ToStringWide(d.s128Value, d.scale);
      } else if d.s128Value == EMPTY_VALUE {
        r := Text("EMPTY");
      } else {
        r := ToStringInt128(d.s128Value);
      }
    } else if d.scale != 0 {
      r := ToStringNarrow(d.value, d.scale);
    } else {
      r := ToStringWhole(d.value);
    }
  }

  // Printed text is a literal of the grammar that denotes the printed number.
  lemma {:induction false} TextDenotes(v: int, s: nat) returns (l: Literal)
    ensures Parse(DecimalText(v, s)) == Parsed(l, "", false) && l.Valid()
    ensures l.negative == (v < 0) && Coefficient(l) == Abs(v)
    ensures |l.fraction| == s && ExponentOf(l) == 0
  {
    var i, f := IntegralOf(Abs(v), s), FractionOf(Abs(v), s);
    var sign := if v < 0 then Minus else NoSign;
    var exact := if s == 0 then Integral(Dec(i)) else IntegralPeriod(Dec(i), Fixed(f, s));
    var d := Derivation(sign, exact, NoExponent);
    l := d.ToLiteral();
    TextParts(sign.Text(), Dec(i), Fixed(f, s));
    ParseComplete(0, d, "");
    ValAppend(Dec(i), Fixed(f, s));
    ValDec(i);
    ValFixed(f, s);
    EuclideanBounds(Abs(v), Pow10(s));
  }

  lemma TextParts(sign: string, i: string, f: string)
    ensures Spaces(0) + (sign + i + "") + "" == sign + i + ""
    ensures Spaces(0) + (sign + (i + "." + f) + "") + "" == sign + i + ("." + f)
  {
    var a, b := Spaces(0) + (sign + (i + "." + f) + "") + "", sign + i + ("." + f);
    assert a == sign + (i + "." + f);
    assert b == sign + (i + ("." + f));
  }

  // Parsing what was printed, at the same scale and a precision the value fits, gives the value
  // back: nothing is rounded or clamped and no condition is raised.
  lemma {:induction false} PrintParseIdentity(v: int, s: nat, p: nat)
    requires Abs(v) < Pow10(p)
    ensures Clamped(Parse(DecimalText(v, s)).literal, s, p) == v
    ensures Conditions(Parse(DecimalText(v, s)), s, p) == {}
  {
    var l := TextDenotes(v, s);
    DenotedValue(l, v, s, p);
  }

  lemma DenotedValue(l: Literal, v: int, s: nat, p: nat)
    requires l.Valid() && l.negative == (v < 0) && Coefficient(l) == Abs(v) < Pow10(p)
    requires |l.fraction| == s && ExponentOf(l) == 0
    ensures Clamped(l, s, p) == v && Conditions(Parsed(l, "", false), s, p) == {}
  {
    RoundedPlain(l, s);
    SignedLeast(v, Abs(v), Pow10(p) - 1);
  }

  // Without an exponent, and at its own scale, a literal is not rounded.
  lemma RoundedPlain(l: Literal, s: nat)
    requires l.Valid() && ExponentOf(l) == 0 && |l.fraction| == s
    ensures Rounded(l, s) == Coefficient(l) && ExponentFits(l)
  {
    Unscaled(Coefficient(l));
  }

  lemma Unscaled(n: nat)
    ensures RoundScaled(n, 0) == n
  {
    assert n * 1 == n;
  }

  lemma SignedLeast(v: int, n: int, limit: int)
    requires n == Abs(v) <= limit
    ensures Signed(v < 0, Least(n, limit)) == v
  {
  }

  // A value of its precision is neither marker, and not the smallest.
  lemma NoMarker(d: Decimal)
    requires d.Valid() && Abs(d.Unscaled()) < Pow10(d.precision)
    ensures d.IsWide() ==> d.s128Value != NULL_VALUE && d.s128Value != EMPTY_VALUE
    ensures !d.IsWide() ==> d.value != SInt64.Min()
  {
    Pow10Constants();
    Pow10Mono(d.precision, if d.IsWide() then 38 else 18);
  }

  // Text that denotes a number, read at its scale and precision.
  method ReadBack(text: string, v: int, s: nat, p: nat) returns (d: Decimal, error: DataCondition)
    requires |text| <= 41 && s <= 38 && p <= INT128MAXPRECISION
    requires Clamped(Parse(text).literal, s, p) == v && Conditions(Parse(text), s, p) == {}
    ensures fresh(error) && error.mError == {}
    ensures d.Unscaled() == v && d.scale == s && d.precision == p
  {
    error := new DataCondition();
    d := FromString(text, error, s, p);
  }

  // Printing and parsing. The one decimal that does not come back is a narrow one whose unused wide
  // half is the null marker: it prints as NULL.
  method PrintThenParse(d: Decimal) returns (printed: Printed, d': Decimal, error: DataCondition)
    requires d.Valid() && Abs(d.Unscaled()) < Pow10(d.precision)
    ensures fresh(error) && error.mError == {}
    ensures printed.Text? <==> d.IsWide() || d.s128Value != NULL_VALUE
    ensures printed.Text? ==> d'.Unscaled() == d.Unscaled() && d'.scale == d.scale && d'.precision == d.precision
  {
    NoMarker(d);
    printed := ToString(d, false);
    if printed.Text? {
      PrintParseIdentity(d.Unscaled(), d.scale, d.precision);
      d', error := ReadBack(printed.text, d.Unscaled(), d.scale, d.precision);
    } else {
      d' := d;
      error := new DataCondition();
    }
  }
}
