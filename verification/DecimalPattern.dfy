/** The regular expression a JSON Schema carries for Decimal(precision, scale), and the strings it matches. */
module DecimalPattern {
  import opened Json
  import opened Digits
  import opened Decimal

  /** The regular expressions the pattern is built from. */
  datatype Regex =
    | Chr(c: char)
    | Range(lo: char, hi: char)
    | Cat(first: Regex, second: Regex)
    | Alt(left: Regex, right: Regex)
    | Opt(body: Regex)
    | Repeat(body: Regex, min: nat, max: nat)
    | Exactly(body: Regex, times: nat)

  ghost predicate Matches(r: Regex, s: string)
    decreases r, 0
  {
    match r
    case Chr(c) => s == [c]
    case Range(lo, hi) => |s| == 1 && lo <= s[0] <= hi
    case Cat(a, b) => exists i :: 0 <= i <= |s| && Matches(a, s[..i]) && Matches(b, s[i..])
    case Alt(a, b) => Matches(a, s) || Matches(b, s)
    case Opt(a) => s == "" || Matches(a, s)
    case Repeat(a, min, max) => exists n: nat :: min <= n <= max && MatchesTimes(a, n, s)
    case Exactly(a, n) => MatchesTimes(a, n, s)
  }

  ghost predicate MatchesTimes(r: Regex, n: nat, s: string)
    decreases r, 1, n
  {
    if n == 0 then s == ""
    else exists i :: 0 <= i <= |s| && Matches(r, s[..i]) && MatchesTimes(r, n - 1, s[i..])
  }

  /** The text of an expression, as a regular expression library reads it. */
  function RegexText(r: Regex): string {
    match r
    case Chr(c) => if c == '.' then "\\." else [c]
    case Range(lo, hi) => "[" + [lo] + "-" + [hi] + "]"
    case Cat(a, b) => RegexText(a) + RegexText(b)
    case Alt(a, b) => "(" + RegexText(a) + "|" + RegexText(b) + ")"
    case Opt(a) => RegexText(a) + "?"
    case Repeat(a, min, max) => RegexText(a) + "{" + Text(min) + "," + Text(max) + "}"
    case Exactly(a, n) => RegexText(a) + "{" + Text(n) + "}"
  }

  const Digit := Range('0', '9')

  /** At most digits digits without leading zeros. */
  function WholePart(digits: nat): Regex
    requires digits >= 1
  {
    Alt(Chr('0'), Cat(Range('1', '9'), Repeat(Digit, 0, digits - 1)))
  }

  function Pattern(p: Params): Regex
    requires Valid(p)
  {
    var m := p.precision - p.scale;
    if p.scale == 0 then Cat(Opt(Chr('-')), WholePart(m))
    else if m == 0 then Cat(Opt(Chr('-')), Cat(Chr('0'), Cat(Chr('.'), Exactly(Digit, p.scale))))
    else Cat(Opt(Chr('-')), Cat(WholePart(m), Cat(Chr('.'), Exactly(Digit, p.scale))))
  }

  function IntText(n: int): string {
    if n < 0 then "-" + Text(-n) else Text(n)
  }

  /** The text of the pattern, whatever the parameters. */
  function PatternText(p: Params): string {
    var m := p.precision - p.scale;
    if p.scale == 0 then "^-?(0|[1-9][0-9]{0," + IntText(m - 1) + "})$"
    else if m == 0 then "^-?0\\.[0-9]{" + IntText(p.scale) + "}$"
    else "^-?(0|[1-9][0-9]{0," + IntText(m - 1) + "})\\.[0-9]{" + IntText(p.scale) + "}$"
  }

  lemma WholeText(digits: nat)
    requires digits >= 1
    ensures RegexText(WholePart(digits)) == "(0|[1-9][0-9]{0," + Text(digits - 1) + "})"
  {
    assert RegexText(Digit) == "[0-9]" && RegexText(Range('1', '9')) == "[1-9]" && Text(0) == "0";
    assert RegexText(Repeat(Digit, 0, digits - 1)) == "[0-9]{0," + Text(digits - 1) + "}";
  }

  lemma FractionText(scale: nat)
    ensures RegexText(Cat(Chr('.'), Exactly(Digit, scale))) == "\\.[0-9]{" + Text(scale) + "}"
  {
    assert RegexText(Digit) == "[0-9]" && RegexText(Chr('.')) == "\\.";
    assert RegexText(Exactly(Digit, scale)) == "[0-9]{" + Text(scale) + "}";
  }

  lemma SignText(body: Regex)
    ensures RegexText(Cat(Opt(Chr('-')), body)) == "-?" + RegexText(body)
  {
    assert RegexText(Opt(Chr('-'))) == "-?";
  }

  lemma WholePattern(digits: string)
    ensures "^" + ("-?" + ("(0|[1-9][0-9]{0," + digits + "})")) + "$" == "^-?(0|[1-9][0-9]{0," + digits + "})$"
  {
    assert "^-?(0|[1-9][0-9]{0," == "^" + "-?" + "(0|[1-9][0-9]{0,";
  }

  lemma FractionPattern(scale: string)
    ensures "^" + ("-?" + ("0" + ("\\.[0-9]{" + scale + "}"))) + "$" == "^-?0\\.[0-9]{" + scale + "}$"
  {
    assert "^-?0\\.[0-9]{" == "^" + "-?" + "0" + "\\.[0-9]{";
  }

  lemma MixedPattern(digits: string, scale: string)
    ensures "^" + ("-?" + (("(0|[1-9][0-9]{0," + digits + "})") + ("\\.[0-9]{" + scale + "}"))) + "$" ==
            "^-?(0|[1-9][0-9]{0," + digits + "})\\.[0-9]{" + scale + "}$"
  {
    assert "^-?(0|[1-9][0-9]{0," == "^" + "-?" + "(0|[1-9][0-9]{0,";
    assert "})\\.[0-9]{" == "})" + "\\.[0-9]{";
  }

  /** For valid parameters it is the text of the expression, between anchors. */
  lemma PatternTextIs(p: Params)
    requires Valid(p)
    ensures PatternText(p) == "^" + RegexText(Pattern(p)) + "$"
  {
    var m := p.precision - p.scale;
    var fraction := Cat(Chr('.'), Exactly(Digit, p.scale));
    FractionText(p.scale);
    if p.scale == 0 {
      SignText(WholePart(m));
      WholeText(m);
      WholePattern(Text(m - 1));
    } else if m == 0 {
      SignText(Cat(Chr('0'), fraction));
      FractionPattern(Text(p.scale));
    } else {
      SignText(Cat(WholePart(m), fraction));
      WholeText(m);
      MixedPattern(Text(m - 1), Text(p.scale));
    }
  }

  // ----- what the pattern matches

  lemma CatMatches(a: Regex, b: Regex, s: string, t: string)
    requires Matches(a, s) && Matches(b, t)
    ensures Matches(Cat(a, b), s + t)
  {
    assert (s + t)[..|s|] == s && (s + t)[|s|..] == t;
  }

  lemma SplitCat(a: Regex, b: Regex, s: string) returns (t: string, u: string)
    requires Matches(Cat(a, b), s)
    ensures s == t + u && Matches(a, t) && Matches(b, u)
  {
    var i :| 0 <= i <= |s| && Matches(a, s[..i]) && Matches(b, s[i..]);
    t, u := s[..i], s[i..];
  }

  lemma {:induction false} DigitsMatch(n: nat, s: string)
    ensures MatchesTimes(Digit, n, s) <==> |s| == n && AllDigits(s)
    decreases n
  {
    if n > 0 {
      if MatchesTimes(Digit, n, s) {
        var i :| 0 <= i <= |s| && Matches(Digit, s[..i]) && MatchesTimes(Digit, n - 1, s[i..]);
        DigitsMatch(n - 1, s[i..]);
        assert s == s[..i] + s[i..];
      }
      if |s| == n && AllDigits(s) {
        DigitsMatch(n - 1, s[1..]);
        assert Matches(Digit, s[..1]);
      }
    }
  }

  lemma RepeatMatches(min: nat, max: nat, s: string)
    ensures Matches(Repeat(Digit, min, max), s) <==> min <= |s| <= max && AllDigits(s)
  {
    forall n: nat ensures MatchesTimes(Digit, n, s) <==> |s| == n && AllDigits(s) {
      DigitsMatch(n, s);
    }
    assert MatchesTimes(Digit, |s|, s) <==> AllDigits(s);
  }

  lemma WholeMatches(digits: nat, s: string)
    requires digits >= 1
    ensures Matches(WholePart(digits), s) <==> Canonical(s) && |s| <= digits
  {
    var tail := Cat(Range('1', '9'), Repeat(Digit, 0, digits - 1));
    if Matches(tail, s) {
      var t, u := SplitCat(Range('1', '9'), Repeat(Digit, 0, digits - 1), s);
      RepeatMatches(0, digits - 1, u);
    }
    if Canonical(s) && |s| <= digits && s[0] != '0' {
      RepeatMatches(0, digits - 1, s[1..]);
      CatMatches(Range('1', '9'), Repeat(Digit, 0, digits - 1), s[..1], s[1..]);
      assert s[..1] + s[1..] == s;
    }
  }

  /** A part of fixed length at the end of a concatenation. */
  lemma PointAndDigits(k: nat, s: string)
    ensures Matches(Cat(Chr('.'), Exactly(Digit, k)), s) <==> |s| == k + 1 && s[0] == '.' && AllDigits(s[1..])
  {
    if Matches(Cat(Chr('.'), Exactly(Digit, k)), s) {
      var t, u := SplitCat(Chr('.'), Exactly(Digit, k), s);
      DigitsMatch(k, u);
      assert s[1..] == u;
    }
    if |s| == k + 1 && s[0] == '.' && AllDigits(s[1..]) {
      DigitsMatch(k, s[1..]);
      CatMatches(Chr('.'), Exactly(Digit, k), ".", s[1..]);
      assert "." + s[1..] == s;
    }
  }

  /** The whole part is one the pattern allows: within the digits left of the point, or a lone zero. */
  predicate WholeFits(p: Params, whole: string)
    requires Valid(p)
  {
    Canonical(whole) && if p.precision == p.scale then whole == "0" else |whole| <= p.precision - p.scale
  }

  /** The unsigned part of the pattern. */
  function Body(p: Params): Regex
    requires Valid(p)
  {
    var whole := if p.precision == p.scale then Chr('0') else WholePart(p.precision - p.scale);
    if p.scale == 0 then whole else Cat(whole, Cat(Chr('.'), Exactly(Digit, p.scale)))
  }

  lemma BodyMatches(p: Params, whole: string, fraction: string)
    requires Valid(p) && |fraction| == p.scale && WholeFits(p, whole) && AllDigits(fraction)
    ensures Matches(Body(p), whole + if p.scale == 0 then "" else "." + fraction)
  {
    var w := if p.precision == p.scale then Chr('0') else WholePart(p.precision - p.scale);
    if p.precision > p.scale {
      WholeMatches(p.precision - p.scale, whole);
    }
    assert Matches(w, whole);
    if p.scale == 0 {
      assert whole + "" == whole;
    } else {
      assert ("." + fraction)[1..] == fraction;
      PointAndDigits(p.scale, "." + fraction);
      CatMatches(w, Cat(Chr('.'), Exactly(Digit, p.scale)), whole, "." + fraction);
    }
  }

  lemma MatchedBody(p: Params, s: string) returns (whole: string, fraction: string)
    requires Valid(p) && Matches(Body(p), s)
    ensures |fraction| == p.scale && WholeFits(p, whole) && AllDigits(fraction)
    ensures s == whole + if p.scale == 0 then "" else "." + fraction
  {
    if p.scale == 0 {
      WholeMatches(p.precision, s);
      whole, fraction := s, "";
    } else {
      var w := if p.precision == p.scale then Chr('0') else WholePart(p.precision - p.scale);
      var f := Cat(Chr('.'), Exactly(Digit, p.scale));
      var t, u := SplitCat(w, f, s);
      PointAndDigits(p.scale, u);
      if p.precision > p.scale {
        WholeMatches(p.precision - p.scale, t);
      }
      whole, fraction := t, u[1..];
      assert u == "." + fraction;
    }
  }

  /** The pattern matches a text if and only if it has allowed pieces. */
  lemma PatternMatches(p: Params, negative: bool, whole: string, fraction: string)
    requires Valid(p) && |fraction| == p.scale && WholeFits(p, whole) && AllDigits(fraction)
    ensures Matches(Pattern(p), Join(negative, whole, fraction))
  {
    var body := whole + if p.scale == 0 then "" else "." + fraction;
    var sign := if negative then "-" else "";
    BodyMatches(p, whole, fraction);
    CatMatches(Opt(Chr('-')), Body(p), sign, body);
    assert Pattern(p) == Cat(Opt(Chr('-')), Body(p));
    assert sign + body == Join(negative, whole, fraction);
  }

  lemma MatchedPattern(p: Params, s: string) returns (negative: bool, whole: string, fraction: string)
    requires Valid(p) && Matches(Pattern(p), s)
    ensures |fraction| == p.scale && WholeFits(p, whole) && AllDigits(fraction)
    ensures s == Join(negative, whole, fraction)
  {
    assert Pattern(p) == Cat(Opt(Chr('-')), Body(p));
    var sign, body := SplitCat(Opt(Chr('-')), Body(p), s);
    whole, fraction := MatchedBody(p, body);
    negative := sign != "";
    assert sign + body == Join(negative, whole, fraction);
  }

  // ----- pieces and magnitude

  /** The whole part fits exactly when the unscaled number has at most precision digits. */
  lemma FitsIffBelow(p: Params, whole: string, fraction: string)
    requires Valid(p) && Canonical(whole) && AllDigits(fraction) && |fraction| == p.scale
    ensures AllDigits(whole + fraction)
    ensures WholeFits(p, whole) <==> NumberOf(whole + fraction) < Pow10(p.precision)
  {
    var digits := whole + fraction;
    if whole == "0" {
      assert digits == Zeros(1) + fraction;
      ValueOfZeros(1, fraction);
      ValueBound(fraction);
      Pow10Monotone(p.scale, p.precision);
    } else {
      assert digits[0] == whole[0] && Canonical(digits);
      TextOfValue(digits);
      TextLength(NumberOf(digits), p.precision);
    }
  }

  /** Every canonical decimal matches the pattern. */
  lemma FormattedMatches(p: Params, unscaled: int)
    requires Valid(p) && Format(p, unscaled).Some?
    ensures Matches(Pattern(p), Format(p, unscaled).value)
  {
    var whole, fraction := FormatParts(p, unscaled);
    FitsIffBelow(p, whole, fraction);
    PatternMatches(p, unscaled < 0, whole, fraction);
  }

  /** A matched text is the canonical form of a number within the precision, or the negated zero. */
  lemma MatchedIsCanonical(p: Params, s: string) returns (n: int)
    requires Valid(p) && Matches(Pattern(p), s)
    ensures Abs(n) < Pow10(p.precision)
    ensures Format(p, n) == Some(s) || (n == 0 && Format(p, 0).Some? && s == "-" + Format(p, 0).value)
  {
    var negative, whole, fraction := MatchedPattern(p, s);
    FitsIffBelow(p, whole, fraction);
    n := Signed(negative, NumberOf(whole + fraction));
    if n == 0 {
      FormatOf(p, false, whole, fraction);
      assert Join(true, whole, fraction) == "-" + Join(false, whole, fraction);
    } else {
      FormatOf(p, negative, whole, fraction);
    }
  }

  /** The strings the pattern matches are the canonical decimals and, besides, the negated zero. */
  lemma PatternIff(p: Params, s: string)
    requires Valid(p)
    ensures Format(p, 0).Some?
    ensures Matches(Pattern(p), s) <==>
            (exists n :: Format(p, n) == Some(s)) || s == "-" + Format(p, 0).value
  {
    var whole, fraction := FormatParts(p, 0);
    FitsIffBelow(p, whole, fraction);
    PatternMatches(p, true, whole, fraction);
    assert Join(true, whole, fraction) == "-" + Join(false, whole, fraction);
    forall n | Format(p, n) == Some(s) ensures Matches(Pattern(p), s) {
      FormattedMatches(p, n);
    }
    if Matches(Pattern(p), s) {
      var n := MatchedIsCanonical(p, s);
    }
  }

  /** What canonicalisation gives is matched by the pattern. */
  lemma CanonicalisedMatches(rat: string -> Option<real>, p: Params, text: string)
    requires Valid(p) && ReadsDecimals(rat) && Canonicalise(rat, p, text).Some?
    ensures Matches(Pattern(p), Canonicalise(rat, p, text).value)
  {
    CanonicaliseIsSlow(rat, p, text);
    FormattedMatches(p, Scale(rat(text).value, p.scale).Floor);
  }
}
