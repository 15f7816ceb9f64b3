/** The recogniser for signed numeric literals: section 5.3 of ISO/IEC 9075-2:2003
    as datatypes/numericliteral.h builds it out of utils/common/genericparser.h.
    Tokens are taken off the front of the remaining text. */
module LiteralGrammar {
  import opened Digits

  // What a parse leaves behind. A part that was not parsed is empty.
  datatype Literal = Literal(negative: bool, integral: string, fraction: string,
                             expNegative: bool, expDigits: string) {
    predicate Valid()
    {
      AllDigits(integral) && AllDigits(fraction) && AllDigits(expDigits)
    }
  }

  datatype Parsed = Parsed(literal: Literal, rest: string, syntaxError: bool)

  // ---------- tokens ----------

  function SkipSpaces(s: string): (r: string)
    ensures |r| <= |s|
  {
    if s != [] && s[0] == ' ' then SkipSpaces(s[1..]) else s
  }

  function TakeDigits(s: string): (r: (string, string))
    ensures s == r.0 + r.1 && AllDigits(r.0) && !StartsWithDigit(r.1)
  {
    if StartsWithDigit(s) then
      var (t, u) := TakeDigits(s[1..]);
      ([s[0]] + t, u)
    else ([], s)
  }

  predicate StartsWithDigit(s: string)
  {
    s != [] && IsDigit(s[0])
  }

  predicate StartsWith(s: string, c: char)
  {
    s != [] && s[0] == c
  }

  predicate StartsWithAny(s: string, c0: char, c1: char)
  {
    s != [] && (s[0] == c0 || s[0] == c1)
  }

  function TakeSign(s: string): (r: (bool, string))
    ensures |r.1| <= |s|
  {
    if StartsWithAny(s, '+', '-') then (s[0] == '-', s[1..]) else (false, s)
  }

  // ---------- rules ----------

  // <period> <unsigned integer> | <unsigned integer> [ <period> [ <unsigned integer> ] ]
  // Neither alternative present leaves both parts empty, which is a syntax error.
  function ParseExact(s: string): (r: (string, string, string))
    ensures |r.0| + |r.1| <= |s| && AllDigits(r.0) && AllDigits(r.1)
  {
    if StartsWith(s, '.') then
      var (frac, u) := TakeDigits(s[1..]);
      ([], frac, u)
    else
      var (intg, t) := TakeDigits(s);
      if intg != [] && StartsWith(t, '.') then
        var (frac, u) := TakeDigits(t[1..]);
        (intg, frac, u)
      else (intg, [], t)
  }

  // [ E [ <sign> ] <unsigned integer> ]: a marker that no digit follows is a syntax error
  function ParseExponent(s: string): (r: (bool, string, string, bool))
  {
    if StartsWithAny(s, 'e', 'E') then
      var (neg, t) := TakeSign(s[1..]);
      var (digits, u) := TakeDigits(t);
      (neg, digits, u, digits == [])
    else (false, [], s, false)
  }

  function ParseSigned(text: string): (p: Parsed)
    ensures p.literal.Valid() && |p.literal.integral| + |p.literal.fraction| <= |text|
  {
    var (neg, s) := TakeSign(text);
    var (intg, frac, t) := ParseExact(s);
    if intg == [] && frac == [] then
      Parsed(Literal(neg, [], [], false, []), t, true)
    else
      var (expNeg, expDigits, u, err) := ParseExponent(t);
      Parsed(Literal(neg, intg, frac, expNeg, expDigits), u, err)
  }

  function Parse(text: string): (p: Parsed)
    ensures p.literal.Valid() && |p.literal.integral| + |p.literal.fraction| <= |text|
  {
    ParseSigned(SkipSpaces(text))
  }

  // ---------- the grammar, independently of the recogniser ----------

  datatype Sign = NoSign | Plus | Minus {
    function Text(): string
    {
      match this case NoSign => "" case Plus => "+" case Minus => "-"
    }
  }
  datatype Exact = Integral(i: string) | IntegralPeriod(i: string, f: string) | FractionAlone(f: string) {
    function Text(): string
    {
      match this
      case Integral(i) => i
      case IntegralPeriod(i, f) => i + "." + f
      case FractionAlone(f) => "." + f
    }
    predicate WellFormed()
    {
      match this
      case Integral(i) => i != [] && AllDigits(i)
      case IntegralPeriod(i, f) => i != [] && AllDigits(i) && AllDigits(f)
      case FractionAlone(f) => f != [] && AllDigits(f)
    }
  }
  datatype Exponent = NoExponent | Exponent(marker: char, sign: Sign, digits: string) {
    function Text(): string
    {
      match this
      case NoExponent => ""
      case Exponent(m, s, d) => [m] + s.Text() + d
    }
    predicate WellFormed()
    {
      Exponent? ==> (marker == 'e' || marker == 'E') && digits != [] && AllDigits(digits)
    }
  }
  datatype Derivation = Derivation(sign: Sign, exact: Exact, exponent: Exponent) {
    function Text(): string
    {
      sign.Text() + exact.Text() + exponent.Text()
    }
    predicate WellFormed()
    {
      exact.WellFormed() && exponent.WellFormed()
    }
    // rest does not continue the literal
    predicate StopsAt(rest: string)
    {
      && !StartsWithDigit(rest)
      && (exponent.NoExponent? ==> !StartsWithAny(rest, 'e', 'E') && (exact.Integral? ==> !StartsWith(rest, '.')))
    }
    function ToLiteral(): Literal
    {
      Literal(sign == Minus,
              if exact.FractionAlone? then [] else exact.i,
              if exact.Integral? then [] else exact.f,
              exponent.Exponent? && exponent.sign == Minus,
              if exponent.Exponent? then exponent.digits else [])
    }
  }

  function Spaces(n: nat): (s: string)
    ensures |s| == n
  {
    if n == 0 then [] else [' '] + Spaces(n - 1)
  }

  // ---------- soundness and completeness ----------

  lemma {:induction false} TakeDigitsOf(digits: string, rest: string)
    requires AllDigits(digits) && !StartsWithDigit(rest)
    ensures TakeDigits(digits + rest) == (digits, rest)
  {
    if digits == [] {
      assert digits + rest == rest;
    } else {
      assert (digits + rest)[1..] == digits[1..] + rest;
      TakeDigitsOf(digits[1..], rest);
      assert [digits[0]] + digits[1..] == digits;
    }
  }

  lemma {:induction false} SkipSpacesOf(n: nat, rest: string)
    requires !StartsWith(rest, ' ')
    ensures SkipSpaces(Spaces(n) + rest) == rest
  {
    if n == 0 {
      assert Spaces(0) + rest == rest;
    } else {
      assert (Spaces(n) + rest)[1..] == Spaces(n - 1) + rest;
      SkipSpacesOf(n - 1, rest);
    }
  }

  lemma {:induction false} TakeSignOf(sign: Sign, rest: string)
    requires !StartsWithAny(rest, '+', '-')
    ensures TakeSign(sign.Text() + rest) == (sign == Minus, rest)
  {
    assert sign.Text() + rest == if sign == NoSign then rest else [sign.Text()[0]] + rest;
  }

  lemma {:induction false} ParseExactOf(exact: Exact, rest: string)
    requires exact.WellFormed() && !StartsWithDigit(rest)
    requires exact.Integral? ==> !StartsWith(rest, '.')
    ensures var l := Derivation(NoSign, exact, NoExponent).ToLiteral();
            ParseExact(exact.Text() + rest) == (l.integral, l.fraction, rest)
  {
    match exact
    case Integral(i) =>
      TakeDigitsOf(i, rest);
    case IntegralPeriod(i, f) =>
      assert exact.Text() + rest == i + ("." + f + rest);
      TakeDigitsOf(i, "." + f + rest);
      assert ("." + f + rest)[1..] == f + rest;
      TakeDigitsOf(f, rest);
    case FractionAlone(f) =>
      assert ("." + f + rest)[1..] == f + rest;
      TakeDigitsOf(f, rest);
  }

  lemma {:induction false} ParseExponentOf(e: Exponent, rest: string)
    requires e.WellFormed() && !StartsWithDigit(rest)
    requires e.NoExponent? ==> !StartsWithAny(rest, 'e', 'E')
    ensures var l := Derivation(NoSign, Integral([]), e).ToLiteral();
            ParseExponent(e.Text() + rest) == (l.expNegative, l.expDigits, rest, false)
  {
    match e
    case NoExponent =>
      assert e.Text() + rest == rest;
    case Exponent(m, s, d) =>
      assert (e.Text() + rest)[1..] == s.Text() + (d + rest);
      TakeSignOf(s, d + rest);
      TakeDigitsOf(d, rest);
  }

  // Completeness: every derivable literal, after any spaces and before anything that
  // does not continue it, is recognised, with exactly its parts.
  lemma {:induction false} ParseComplete(n: nat, d: Derivation, rest: string)
    requires d.WellFormed() && d.StopsAt(rest)
    ensures Parse(Spaces(n) + d.Text() + rest) == Parsed(d.ToLiteral(), rest, false)
  {
    assert Spaces(n) + d.Text() + rest == Spaces(n) + (d.Text() + rest);
    assert !StartsWith(d.Text() + rest, ' ') by {
      ExactStart(d.exact, d.exponent.Text() + rest);
      Regroup([], d.sign.Text(), d.exact.Text(), d.exponent.Text(), rest);
      if d.sign == NoSign {
        assert d.Text() + rest == d.exact.Text() + (d.exponent.Text() + rest);
      }
    }
    SkipSpacesOf(n, d.Text() + rest);
    ParseSignedOf(d, rest);
  }

  lemma {:induction false} ParseSignedOf(d: Derivation, rest: string)
    requires d.WellFormed() && d.StopsAt(rest)
    ensures ParseSigned(d.Text() + rest) == Parsed(d.ToLiteral(), rest, false)
  {
    var afterExact := d.exponent.Text() + rest;
    var afterSign := d.exact.Text() + afterExact;
    Regroup([], d.sign.Text(), d.exact.Text(), d.exponent.Text(), rest);
    ExactStart(d.exact, afterExact);
    TakeSignOf(d.sign, afterSign);
    assert !StartsWithDigit(afterExact) && (d.exact.Integral? ==> !StartsWith(afterExact, '.')) by {
      assert d.exponent.NoExponent? ==> afterExact == rest;
    }
    ParseExactOf(d.exact, afterExact);
    ParseExponentOf(d.exponent, rest);
  }

  // An exact literal starts with a digit or a period.
  lemma {:induction false} ExactStart(exact: Exact, rest: string)
    requires exact.WellFormed()
    ensures !StartsWithAny(exact.Text() + rest, '+', '-')
    ensures !StartsWith(exact.Text() + rest, ' ')
  {
    assert (exact.Text() + rest)[0] == exact.Text()[0];
  }

  lemma {:induction false} SkipSpacesSplits(s: string) returns (n: nat)
    ensures s == Spaces(n) + SkipSpaces(s)
  {
    if s != [] && s[0] == ' ' {
      n := SkipSpacesSplits(s[1..]);
      n := n + 1;
      assert s == [' '] + s[1..];
    } else {
      n := 0;
    }
  }

  lemma {:induction false} TakeSignSplits(s: string) returns (sign: Sign)
    ensures s == sign.Text() + TakeSign(s).1
    ensures TakeSign(s).0 == (sign == Minus)
  {
    sign := if StartsWith(s, '-') then Minus else if StartsWith(s, '+') then Plus else NoSign;
    assert s != [] ==> s == [s[0]] + s[1..];
  }

  lemma {:induction false} ParseExactSplits(s: string) returns (exact: Exact)
    requires ParseExact(s).0 != [] || ParseExact(s).1 != []
    ensures exact.WellFormed() && s == exact.Text() + ParseExact(s).2
    ensures !StartsWithDigit(ParseExact(s).2) && (exact.Integral? ==> !StartsWith(ParseExact(s).2, '.'))
    ensures var l := Derivation(NoSign, exact, NoExponent).ToLiteral();
            l.integral == ParseExact(s).0 && l.fraction == ParseExact(s).1
  {
    if StartsWith(s, '.') {
      var (frac, u) := TakeDigits(s[1..]);
      exact := FractionAlone(frac);
      CharFirst(s);
      Join(['.'], frac, u);
    } else {
      var (intg, t) := TakeDigits(s);
      if StartsWith(t, '.') {
        var (frac, u) := TakeDigits(t[1..]);
        exact := IntegralPeriod(intg, frac);
        CharFirst(t);
        Regroup([], intg, ".", frac, u);
      } else {
        exact := Integral(intg);
      }
    }
  }

  lemma {:induction false} CharFirst(s: string)
    requires s != []
    ensures s == [s[0]] + s[1..]
  {
  }

  lemma {:induction false} Join(a: string, b: string, c: string)
    ensures a + (b + c) == a + b + c
  {
  }

  // Soundness: text accepted without a syntax error is spaces, a derivable literal whose
  // parts are the ones returned, and a rest that does not continue it.
  lemma {:induction false} ParseSound(text: string) returns (n: nat, d: Derivation)
    requires !Parse(text).syntaxError
    ensures d.WellFormed() && d.StopsAt(Parse(text).rest)
    ensures text == Spaces(n) + d.Text() + Parse(text).rest
    ensures Parse(text).literal == d.ToLiteral()
  {
    n := SkipSpacesSplits(text);
    var sign := TakeSignSplits(SkipSpaces(text));
    var s := TakeSign(SkipSpaces(text)).1;
    var exact := ParseExactSplits(s);
    var t := ParseExact(s).2;
    var e := ParseExponentSplits(t);
    d := Derivation(sign, exact, e);
    var u := ParseExponent(t).2;
    Regroup(Spaces(n), sign.Text(), exact.Text(), e.Text(), u);
  }

  lemma {:induction false} Regroup(a: string, b: string, c: string, d: string, e: string)
    ensures a + (b + (c + (d + e))) == a + (b + c + d) + e
    ensures b + (c + (d + e)) == b + c + d + e
  {
  }

  lemma {:induction false} ParseExponentSplits(t: string) returns (e: Exponent)
    requires !ParseExponent(t).3 && !StartsWithDigit(t)
    ensures e.WellFormed() && t == e.Text() + ParseExponent(t).2
    ensures !StartsWithDigit(ParseExponent(t).2)
    ensures e.NoExponent? ==> ParseExponent(t).2 == t && !StartsWithAny(t, 'e', 'E')
    ensures var l := Derivation(NoSign, Integral([]), e).ToLiteral();
            l.expNegative == ParseExponent(t).0 && l.expDigits == ParseExponent(t).1
  {
    e := NoExponent;
    if StartsWithAny(t, 'e', 'E') {
      var sign := TakeSignSplits(t[1..]);
      var (digits, u) := TakeDigits(TakeSign(t[1..]).1);
      e := Exponent(t[0], sign, digits);
      CharFirst(t);
      Regroup([], [t[0]], sign.Text(), digits, u);
    }
  }

  // ---------- examples ----------

  // How literals are written, and what ends them.
  lemma WrittenForms()
    ensures var d := Derivation(NoSign, Integral("1"), Exponent('e', NoSign, "2"));
            d.WellFormed() && d.Text() == "1e2" && d.StopsAt("e3")
    ensures var d := Derivation(Minus, FractionAlone("5"), Exponent('E', Minus, "3"));
            d.WellFormed() && d.Text() == "-.5E-3" && d.StopsAt(".5")
    ensures var d := Derivation(Plus, IntegralPeriod("12", "5"), NoExponent);
            d.WellFormed() && d.Text() == "+12.5" && d.StopsAt("x2") && !d.StopsAt("6") && !d.StopsAt("e6")
    ensures var d := Derivation(NoSign, Integral("7"), NoExponent);
            d.WellFormed() && d.Text() == "7" && d.StopsAt("d2") && !d.StopsAt(".5")
    ensures Spaces(2) == "  "
  {
    assert Derivation(Minus, FractionAlone("5"), Exponent('E', Minus, "3")).exponent.Text() == "E-3";
  }

  // A marker without digits, and a period alone.
  lemma SyntaxErrors()
    ensures Parse("1e") == Parsed(Literal(false, "1", "", false, ""), "", true)
    ensures Parse(".") == Parsed(Literal(false, "", "", false, ""), "", true)
  {
    TakeDigitsOf("1", "e");
    assert "1" + "e" == "1e" && "e"[1..] == "";
    assert "."[1..] == "";
  }
}
