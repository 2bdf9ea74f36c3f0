/** Decimal digit strings and the numbers they denote. */
module Digits {

  function Pow10(n: nat): (r: nat)
    ensures r >= 1
  {
    if n == 0 then 1 else 10 * Pow10(n - 1)
  }

  predicate IsDigit(c: char) { '0' <= c <= '9' }

  predicate AllDigits(s: string) { forall i :: 0 <= i < |s| ==> IsDigit(s[i]) }

  function DigitValue(c: char): (r: nat)
    requires IsDigit(c)
    ensures r < 10
  {
    c as int - '0' as int
  }

  function DigitChar(n: nat): (c: char)
    requires n < 10
    ensures IsDigit(c) && DigitValue(c) == n
  {
    ('0' as int + n) as char
  }

  /** The number a digit string denotes. */
  function NumberOf(s: string): nat
    requires AllDigits(s)
  {
    if s == "" then 0 else 10 * NumberOf(s[..|s| - 1]) + DigitValue(s[|s| - 1])
  }

  /** The digits of a number, without leading zeros. */
  function Text(n: nat): string {
    if n < 10 then [DigitChar(n)] else Text(n / 10) + [DigitChar(n % 10)]
  }

  /** Either "0" or a digit string that starts with another digit. */
  predicate Canonical(s: string) {
    AllDigits(s) && s != "" && (s[0] == '0' ==> |s| == 1)
  }

  function Zeros(n: nat): (s: string)
    ensures |s| == n && forall i :: 0 <= i < n ==> s[i] == '0'
  {
    seq(n, i => '0')
  }

  /** The digits of a number, filled up with leading zeros to the given width. */
  function Padded(n: nat, width: nat): string {
    if |Text(n)| >= width then Text(n) else Zeros(width - |Text(n)|) + Text(n)
  }

  lemma {:induction false} ValueBound(s: string)
    requires AllDigits(s)
    ensures NumberOf(s) < Pow10(|s|)
  {
    if s != "" {
      ValueBound(s[..|s| - 1]);
    }
  }

  lemma {:induction false} ValueAtLeast(s: string)
    requires Canonical(s) && s != "0"
    ensures NumberOf(s) >= Pow10(|s| - 1)
  {
    if |s| > 1 {
      var init := s[..|s| - 1];
      assert init[0] == s[0];
      ValueAtLeast(init);
    } else {
      assert s == [s[0]] && s[..0] == "";
    }
  }

  lemma {:induction false} Pow10Monotone(a: nat, b: nat)
    requires a <= b
    ensures Pow10(a) <= Pow10(b)
    decreases b
  {
    if a < b {
      Pow10Monotone(a, b - 1);
    }
  }

  lemma {:induction false} TextIs(n: nat)
    ensures Canonical(Text(n)) && NumberOf(Text(n)) == n && (Text(n)[0] == '0' ==> n == 0)
  {
    if n >= 10 {
      TextIs(n / 10);
      var t := Text(n);
      assert t[..|t| - 1] == Text(n / 10);
      assert t[0] == Text(n / 10)[0];
    } else {
      assert Text(n)[..0] == "";
    }
  }

  /** A canonical digit string is the text of its value. */
  lemma {:induction false} TextOfValue(s: string)
    requires Canonical(s)
    ensures Text(NumberOf(s)) == s
  {
    if |s| == 1 {
      assert s[..0] == "" && s == [s[0]];
    } else {
      var init := s[..|s| - 1];
      assert init[0] == s[0];
      TextOfValue(init);
      ValueAtLeast(init);
      assert Pow10(|init| - 1) >= 1;
      assert NumberOf(s) / 10 == NumberOf(init) && NumberOf(s) % 10 == DigitValue(s[|s| - 1]);
      assert s == init + [s[|s| - 1]];
    }
  }

  /** The text of a number has at most k digits exactly when the number is below 10^k. */
  lemma TextLength(n: nat, k: nat)
    requires k > 0
    ensures |Text(n)| <= k <==> n < Pow10(k)
  {
    TextIs(n);
    var t := Text(n);
    ValueBound(t);
    if |t| <= k {
      Pow10Monotone(|t|, k);
    } else {
      ValueAtLeast(t);
      Pow10Monotone(k, |t| - 1);
    }
  }

  lemma {:induction false} ValueOfZeros(k: nat, s: string)
    requires AllDigits(s)
    ensures AllDigits(Zeros(k) + s) && NumberOf(Zeros(k) + s) == NumberOf(s)
    decreases |s|, k
  {
    var z := Zeros(k) + s;
    if s != "" {
      ValueOfZeros(k, s[..|s| - 1]);
      assert z[..|z| - 1] == Zeros(k) + s[..|s| - 1];
    } else if k > 0 {
      ValueOfZeros(k - 1, s);
      assert z[..|z| - 1] == Zeros(k - 1) + s;
    }
  }

  lemma PaddedIs(n: nat, width: nat)
    requires width >= 1
    ensures AllDigits(Padded(n, width)) && NumberOf(Padded(n, width)) == n
    ensures |Padded(n, width)| == if |Text(n)| >= width then |Text(n)| else width
    ensures |Padded(n, width)| > width ==> Padded(n, width)[0] != '0'
  {
    TextIs(n);
    if |Text(n)| < width {
      ValueOfZeros(width - |Text(n)|, Text(n));
    }
  }

  /** Leading zeros of a digit string, up to the last digit, leave its value alone. */
  lemma {:induction false} StripZeros(s: string) returns (k: nat)
    requires AllDigits(s) && s != ""
    ensures k < |s| && s == Zeros(k) + s[k..] && Canonical(s[k..]) && NumberOf(s[k..]) == NumberOf(s)
  {
    if s[0] != '0' || |s| == 1 {
      k := 0;
      assert s[0..] == s;
    } else {
      var j := StripZeros(s[1..]);
      k := j + 1;
      assert s[k..] == s[1..][j..];
      assert s == Zeros(k) + s[k..];
      ValueOfZeros(k, s[k..]);
    }
  }

  /** A digit string whose surplus digits do not start with a zero is the padded text of its value. */
  lemma PaddedOfValue(s: string, width: nat)
    requires AllDigits(s) && |s| >= width >= 1
    requires |s| > width ==> s[0] != '0'
    ensures Padded(NumberOf(s), width) == s
  {
    var k := StripZeros(s);
    TextOfValue(s[k..]);
    assert k > 0 ==> s[0] == '0';
    if |s| > width {
      assert s[0..] == s;
    }
  }
}
