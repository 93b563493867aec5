/** The string handling behind sample ids and years: decimal formatting (`str(n)` and
    `{n:03d}`), the last `_`-separated field of a string and Python's `int()` on it. */
module Text {
  import opened Grids

  predicate IsDigit(c: char) {
    '0' <= c <= '9'
  }

  predicate AllDigits(s: string) {
    forall k :: 0 <= k < |s| ==> IsDigit(s[k])
  }

  function DigitChar(d: nat): (c: char)
    requires d < 10
    ensures IsDigit(c)
  {
    (48 + d) as char
  }

  function DigitValue(c: char): (d: nat)
    requires IsDigit(c)
    ensures d < 10
  {
    c as int - 48
  }

  /** The decimal digits of `n`, most significant first, with no leading zero. */
  function NatToString(n: nat): (s: string)
    ensures |s| > 0 && AllDigits(s)
    decreases n
  {
    if n < 10 then [DigitChar(n)] else NatToString(n / 10) + [DigitChar(n % 10)]
  }

  /** The value of a string of decimal digits; leading zeros are allowed. */
  function ParseDigits(s: string): nat
    requires AllDigits(s)
    decreases |s|
  {
    if |s| == 0 then 0 else ParseDigits(s[..|s| - 1]) * 10 + DigitValue(s[|s| - 1])
  }

  /** Reading back the decimal form gives the number. */
  lemma {:induction false} ParseNatToString(n: nat)
    ensures ParseDigits(NatToString(n)) == n
    decreases n
  {
    if n >= 10 {
      ParseNatToString(n / 10);
      var s := NatToString(n);
      assert s[..|s| - 1] == NatToString(n / 10);
    }
  }

  function Zeros(k: nat): (s: string)
    ensures |s| == k && AllDigits(s)
  {
    seq(k, _ => '0')
  }

  /** `f'{n:03d}'`: the decimal form left-padded with zeros to at least three characters. */
  function ZeroPad3(n: nat): (s: string)
    ensures AllDigits(s)
  {
    var d := NatToString(n);
    (if |d| < 3 then Zeros(3 - |d|) else "") + d
  }

  lemma {:induction false} ParseZeros(k: nat)
    ensures ParseDigits(Zeros(k)) == 0
  {
    if k > 0 {
      ParseZeros(k - 1);
      assert Zeros(k)[..k - 1] == Zeros(k - 1);
    }
  }

  /** Leading zeros do not change the value. */
  lemma {:induction false} ParseLeadingZeros(k: nat, s: string)
    requires AllDigits(s)
    ensures ParseDigits(Zeros(k) + s) == ParseDigits(s)
    decreases |s|
  {
    if |s| == 0 {
      assert Zeros(k) + s == Zeros(k);
      ParseZeros(k);
    } else {
      var n := |s| - 1;
      ParseLeadingZeros(k, s[..n]);
      assert (Zeros(k) + s)[..k + n] == Zeros(k) + s[..n];
    }
  }

  /** The padded form is at least three characters long and reads back as `n`. */
  lemma ZeroPad3RoundTrip(n: nat)
    ensures |ZeroPad3(n)| >= 3
    ensures ParseDigits(ZeroPad3(n)) == n
  {
    var d := NatToString(n);
    ParseNatToString(n);
    if |d| < 3 {
      ParseLeadingZeros(3 - |d|, d);
    } else {
      assert ZeroPad3(n) == d;
    }
  }

  /** Distinct numbers have distinct padded forms. */
  lemma ZeroPad3Injective(a: nat, b: nat)
    requires a != b
    ensures ZeroPad3(a) != ZeroPad3(b)
  {
    ZeroPad3RoundTrip(a);
    ZeroPad3RoundTrip(b);
  }

  /** `s.split('_')[-1]`: the text after the last underscore, or all of `s` when it has none. */
  function LastField(s: string): (f: string)
    ensures '_' !in f
    ensures |f| <= |s| && f == s[|s| - |f|..]
    ensures '_' !in s ==> f == s
    ensures |f| < |s| ==> s[|s| - |f| - 1] == '_'
    decreases |s|
  {
    if |s| == 0 || s[|s| - 1] == '_' then ""
    else
      var n := |s| - 1;
      var t := LastField(s[..n]);
      assert s == s[..n] + [s[n]];
      assert '_' !in s ==> '_' !in s[..n];
      assert |t| < n ==> s[n - |t| - 1] == s[..n][n - |t| - 1];
      t + [s[n]]
  }

  /** The last field of `prefix_field` is `field` whatever the prefix holds. */
  lemma {:induction false} LastFieldOf(prefix: string, field: string)
    requires '_' !in field
    ensures LastField(prefix + "_" + field) == field
    decreases |field|
  {
    if |field| == 0 {
      LastFieldAfterUnderscore(prefix);
    } else {
      var n := |field| - 1;
      var c := field[n];
      assert c in field;
      assert '_' !in field[..n] by {
        assert forall k :: 0 <= k < n ==> field[..n][k] == field[k];
      }
      LastFieldOf(prefix, field[..n]);
      assert prefix + "_" + field == (prefix + "_" + field[..n]) + [c];
      LastFieldSnoc(prefix + "_" + field[..n], c);
      assert field == field[..n] + [c];
    }
  }

  lemma LastFieldAfterUnderscore(prefix: string)
    ensures LastField(prefix + "_") == ""
  {
    var s := prefix + "_";
    assert s[|s| - 1] == '_';
  }

  lemma LastFieldSnoc(t: string, c: char)
    requires c != '_'
    ensures LastField(t + [c]) == LastField(t) + [c]
  {
    assert (t + [c])[..|t|] == t;
  }

  /** Python's `int()` on a string: an optional sign followed by at least one decimal digit. */
  function ParseInt(s: string): (r: Option<int>)
    ensures r.Some? ==> |s| > 0
  {
    if |s| > 0 && (s[0] == '-' || s[0] == '+') then
      var digits := s[1..];
      if |digits| > 0 && AllDigits(digits) then
        Some(if s[0] == '-' then -(ParseDigits(digits) as int) else ParseDigits(digits) as int)
      else None
    else if |s| > 0 && AllDigits(s) then Some(ParseDigits(s))
    else None
  }

  /** The decimal form of a number, signed or not, parses back to it. */
  lemma ParseIntRoundTrip(n: nat)
    ensures ParseInt(NatToString(n)) == Some(n)
    ensures ParseInt("-" + NatToString(n)) == Some(-(n as int))
  {
    ParseNatToString(n);
    var d := NatToString(n);
    assert ("-" + d)[1..] == d;
  }

  /** A string with a character that is neither a digit nor a leading sign is refused. */
  lemma ParseIntRefuses(s: string, k: int)
    requires 0 < k < |s| && !IsDigit(s[k])
    ensures ParseInt(s) == None
  {
    if s[0] == '-' || s[0] == '+' {
      assert s[1..][k - 1] == s[k];
    }
  }
}
