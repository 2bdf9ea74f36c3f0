/** Canonical decimal strings for Decimal(precision, scale), and the pattern a JSON Schema states for them. */
module Decimal {
  import opened Json
  import opened Digits

  /** The parameters of a decimal type; scale digits of precision stand after the point. */
  datatype Params = Params(precision: nat, scale: nat)

  predicate Valid(p: Params) { 1 <= p.precision && p.scale <= p.precision }

  // ----- texts of the form [-]digits[.digits]

  function Join(negative: bool, whole: string, fraction: string): string {
    (if negative then "-" else "") + whole + (if fraction == "" then "" else "." + fraction)
  }

  /** The sign, whole part and fraction of a text, by the position of the point. */
  function Pieces(p: Params, text: string): Option<(bool, string, string)> {
    var negative := text != "" && text[0] == '-';
    var body := if negative then text[1..] else text;
    var point := |body| - p.scale - (if p.scale == 0 then 0 else 1);
    if point < 1 || (p.scale > 0 && body[point] != '.') then None
    else Some((negative, body[..point], body[|body| - p.scale..]))
  }

  function Abs(n: int): nat { if n < 0 then -n else n }

  function Signed(negative: bool, n: nat): int { if negative then 0 - (n as int) else n }

  // ----- formatting and parsing of unscaled integers

  /** The canonical string of unscaled / 10^scale, None when it has more than precision digits. */
  function Format(p: Params, unscaled: int): Option<string> {
    if Abs(unscaled) >= Pow10(p.precision) then None
    else
      PaddedIs(Abs(unscaled), p.scale + 1);
      var digits := Padded(Abs(unscaled), p.scale + 1);
      var point := |digits| - p.scale;
      Some(Join(unscaled < 0, digits[..point], digits[point..]))
  }

  /** The unscaled integer of a canonical string, None for any other text. */
  function Parse(p: Params, text: string): Option<int> {
    var pieces := Pieces(p, text);
    if pieces.None? then None
    else
      var (negative, whole, fraction) := pieces.value;
      if !Canonical(whole) || !AllDigits(fraction) then None
      else
        var n := NumberOf(whole + fraction);
        if n >= Pow10(p.precision) || (negative && n == 0) then None else Some(Signed(negative, n))
  }

  lemma SplitDigits(digits: string, k: nat)
    requires AllDigits(digits) && |digits| > k && (|digits| > k + 1 ==> digits[0] != '0')
    ensures Canonical(digits[..|digits| - k]) && AllDigits(digits[|digits| - k..])
    ensures digits[..|digits| - k] + digits[|digits| - k..] == digits
  {
    assert digits[..|digits| - k][0] == digits[0];
  }

  lemma PaddedParts(n: nat, scale: nat) returns (whole: string, fraction: string)
    ensures Canonical(whole) && AllDigits(fraction) && |fraction| == scale
    ensures AllDigits(whole + fraction) && NumberOf(whole + fraction) == n
    ensures var digits := Padded(n, scale + 1);
            |digits| >= scale && digits[..|digits| - scale] == whole && digits[|digits| - scale..] == fraction
  {
    var digits := Padded(n, scale + 1);
    PaddedIs(n, scale + 1);
    SplitDigits(digits, scale);
    whole, fraction := digits[..|digits| - scale], digits[|digits| - scale..];
  }

  /** The two parts of a formatted number. */
  lemma FormatParts(p: Params, unscaled: int) returns (whole: string, fraction: string)
    requires Format(p, unscaled).Some?
    ensures Canonical(whole) && AllDigits(fraction) && |fraction| == p.scale
    ensures AllDigits(whole + fraction) && NumberOf(whole + fraction) == Abs(unscaled) < Pow10(p.precision)
    ensures Format(p, unscaled) == Some(Join(unscaled < 0, whole, fraction))
  {
    whole, fraction := PaddedParts(Abs(unscaled), p.scale);
  }

  /** Any canonical whole part and fraction of the right length are what formatting their value gives. */
  lemma FormatOf(p: Params, negative: bool, whole: string, fraction: string)
    requires Canonical(whole) && AllDigits(fraction) && |fraction| == p.scale
    ensures AllDigits(whole + fraction)
    ensures NumberOf(whole + fraction) < Pow10(p.precision) && (negative ==> NumberOf(whole + fraction) > 0) ==>
              Format(p, Signed(negative, NumberOf(whole + fraction))) == Some(Join(negative, whole, fraction))
  {
    var digits := whole + fraction;
    assert digits[0] == whole[0];
    PaddedOfValue(digits, p.scale + 1);
    assert digits[..|whole|] == whole && digits[|whole|..] == fraction;
  }

  function Body(whole: string, fraction: string): string {
    whole + if fraction == "" then "" else "." + fraction
  }

  lemma JoinIs(negative: bool, whole: string, fraction: string)
    requires whole != "" && whole[0] != '-'
    ensures var text := Join(negative, whole, fraction);
            && text != "" && (text[0] == '-' <==> negative)
            && (if negative then text[1..] else text) == Body(whole, fraction)
  {
    var text, body := Join(negative, whole, fraction), Body(whole, fraction);
    assert body[0] == whole[0];
    if negative {
      assert text == "-" + body;
    } else {
      assert text == body;
    }
  }

  lemma BodyParts(whole: string, fraction: string)
    ensures var body := Body(whole, fraction);
            && body[..|whole|] == whole && body[|body| - |fraction|..] == fraction
            && (fraction != "" ==> |body| == |whole| + 1 + |fraction| && body[|whole|] == '.')
            && (fraction == "" ==> |body| == |whole|)
  {
  }

  /** Taking a text apart and joining the pieces are inverse. */
  lemma PiecesOfJoin(p: Params, negative: bool, whole: string, fraction: string)
    requires whole != "" && whole[0] != '-' && |fraction| == p.scale
    ensures Pieces(p, Join(negative, whole, fraction)) == Some((negative, whole, fraction))
  {
    JoinIs(negative, whole, fraction);
    BodyParts(whole, fraction);
  }

  lemma JoinOfPieces(p: Params, text: string)
    requires Pieces(p, text).Some?
    ensures var (negative, whole, fraction) := Pieces(p, text).value;
            |fraction| == p.scale && text == Join(negative, whole, fraction)
  {
    var (negative, whole, fraction) := Pieces(p, text).value;
    var body := if negative then text[1..] else text;
    assert body == whole + if p.scale == 0 then "" else "." + fraction;
  }

  lemma ParsedPieces(p: Params, text: string, negative: bool, whole: string, fraction: string)
    requires Pieces(p, text) == Some((negative, whole, fraction)) && Canonical(whole) && AllDigits(fraction)
    requires AllDigits(whole + fraction) && NumberOf(whole + fraction) < Pow10(p.precision)
    requires negative ==> NumberOf(whole + fraction) > 0
    ensures Parse(p, text) == Some(Signed(negative, NumberOf(whole + fraction)))
  {
  }

  /** Parsing undoes formatting. */
  lemma ParseFormat(p: Params, unscaled: int)
    requires Format(p, unscaled).Some?
    ensures Parse(p, Format(p, unscaled).value) == Some(unscaled)
  {
    var whole, fraction := FormatParts(p, unscaled);
    PiecesOfJoin(p, unscaled < 0, whole, fraction);
    ParsedPieces(p, Join(unscaled < 0, whole, fraction), unscaled < 0, whole, fraction);
  }

  /** Only canonical strings parse, each to the number it is the canonical string of. */
  lemma FormatParse(p: Params, text: string)
    requires Parse(p, text).Some?
    ensures Format(p, Parse(p, text).value) == Some(text)
  {
    JoinOfPieces(p, text);
    var (negative, whole, fraction) := Pieces(p, text).value;
    FormatOf(p, negative, whole, fraction);
  }

  // ----- canonicalisation

  /** r times 10^k, one factor at a time. */
  function Scale(r: real, k: nat): real
    decreases k
  {
    if k == 0 then r else Scale(10.0 * r, k - 1)
  }

  /** r divided by 10^k, one factor at a time. */
  function Unscale(r: real, k: nat): real
    decreases k
  {
    if k == 0 then r else Unscale(r, k - 1) / 10.0
  }

  lemma {:induction false} ScaleIs(r: real, k: nat)
    ensures Scale(r, k) == r * Pow10(k) as real
    decreases k
  {
    if k > 0 {
      ScaleIs(10.0 * r, k - 1);
      assert 10.0 * r * Pow10(k - 1) as real == r * (10.0 * Pow10(k - 1) as real);
    }
  }

  lemma {:induction false} ScaleUnscale(r: real, k: nat)
    ensures Scale(Unscale(r, k), k) == r
    decreases k
  {
    if k > 0 {
      ScaleUnscale(r, k - 1);
    }
  }

  lemma {:induction false} ScaleInjective(r: real, r': real, k: nat)
    requires Scale(r, k) == Scale(r', k)
    ensures r == r'
    decreases k
  {
    if k > 0 {
      ScaleInjective(10.0 * r, 10.0 * r', k - 1);
    }
  }

  /** The number a text of the form [-]digits[.digits] denotes. */
  function Denotes(negative: bool, whole: string, fraction: string): real
    requires AllDigits(whole + fraction)
  {
    Unscale(Signed(negative, NumberOf(whole + fraction)) as real, |fraction|)
  }

  /** An exact reader of decimal texts; other forms, such as exponents or a plus sign, are its own business. */
  ghost predicate ReadsDecimals(rat: string -> Option<real>) {
    forall negative, whole, fraction {:trigger Denotes(negative, whole, fraction)} ::
      whole != "" && AllDigits(whole + fraction) ==>
        rat(Join(negative, whole, fraction)) == Some(Denotes(negative, whole, fraction))
  }

  /** The way taken for texts that are not canonical yet. */
  function Slow(rat: string -> Option<real>, p: Params, text: string): Option<string> {
    var r := rat(text);
    if r.None? then None
    else
      var scaled := Scale(r.value, p.scale);
      if scaled.Floor as real != scaled then None else Format(p, scaled.Floor)
  }

  function Canonicalise(rat: string -> Option<real>, p: Params, text: string): Option<string> {
    var unscaled := Parse(p, text);
    if unscaled.Some? then Format(p, unscaled.value) else Slow(rat, p, text)
  }

  /** What a formatted number reads as. */
  lemma FormattedValue(rat: string -> Option<real>, p: Params, unscaled: int)
    requires ReadsDecimals(rat) && Format(p, unscaled).Some?
    ensures rat(Format(p, unscaled).value) == Some(Unscale(unscaled as real, p.scale))
  {
    var whole, fraction := FormatParts(p, unscaled);
    var d := Denotes(unscaled < 0, whole, fraction);
  }

  /** Where the fast way applies, the slow way gives the same text. */
  lemma PathsAgree(rat: string -> Option<real>, p: Params, text: string)
    requires ReadsDecimals(rat) && Parse(p, text).Some?
    ensures Slow(rat, p, text) == Canonicalise(rat, p, text) == Some(text)
  {
    var unscaled := Parse(p, text).value;
    FormatParse(p, text);
    FormattedValue(rat, p, unscaled);
    ScaleUnscale(unscaled as real, p.scale);
  }

  lemma CanonicaliseIsSlow(rat: string -> Option<real>, p: Params, text: string)
    requires ReadsDecimals(rat)
    ensures Canonicalise(rat, p, text) == Slow(rat, p, text)
  {
    if Parse(p, text).Some? {
      PathsAgree(rat, p, text);
    }
  }

  /** A canonicalised text denotes the same number as its input. */
  lemma SameNumber(rat: string -> Option<real>, p: Params, text: string)
    requires ReadsDecimals(rat) && Canonicalise(rat, p, text).Some?
    ensures rat(text).Some? && rat(Canonicalise(rat, p, text).value) == rat(text)
  {
    CanonicaliseIsSlow(rat, p, text);
    var scaled := Scale(rat(text).value, p.scale);
    FormattedValue(rat, p, scaled.Floor);
    ScaleUnscale(scaled, p.scale);
    ScaleInjective(rat(text).value, Unscale(scaled, p.scale), p.scale);
  }

  /** r is n / 10^scale, and n has at most precision digits. */
  ghost predicate Representable(p: Params, r: real, n: int) {
    Abs(n) < Pow10(p.precision) && r == Unscale(n as real, p.scale)
  }

  /** Canonicalisation accepts exactly the numbers that fit the scale and the precision without rounding. */
  lemma AcceptsIff(rat: string -> Option<real>, p: Params, text: string)
    requires ReadsDecimals(rat)
    ensures Canonicalise(rat, p, text).Some? <==>
            rat(text).Some? && exists n :: Representable(p, rat(text).value, n)
  {
    CanonicaliseIsSlow(rat, p, text);
    if rat(text).Some? {
      var r := rat(text).value;
      var scaled := Scale(r, p.scale);
      ScaleUnscale(scaled, p.scale);
      ScaleInjective(r, Unscale(scaled, p.scale), p.scale);
      assert scaled.Floor as real == scaled && Abs(scaled.Floor) < Pow10(p.precision) ==> Representable(p, r, scaled.Floor);
      forall n | Representable(p, r, n) ensures scaled == n as real {
        ScaleUnscale(n as real, p.scale);
      }
    }
  }

  /** Every result is canonical, and canonical texts are left alone. */
  lemma Idempotent(rat: string -> Option<real>, p: Params, text: string)
    requires ReadsDecimals(rat) && Canonicalise(rat, p, text).Some?
    ensures var out := Canonicalise(rat, p, text).value;
            Parse(p, out).Some? && Canonicalise(rat, p, out) == Some(out)
  {
    CanonicaliseIsSlow(rat, p, text);
    ParseFormat(p, Scale(rat(text).value, p.scale).Floor);
  }
}
