/**
  Decimal digit strings as the stages read them: int() on a word, the
  digit groups of a capitalisation spec, and float() on a weight.
*/
module Numeric {
  import opened Wrappers

  predicate IsDigit(c: char)
  {
    '0' <= c <= '9'
  }

  predicate AllDigits(s: string)
  {
    forall k :: 0 <= k < |s| ==> IsDigit(s[k])
  }

  /** The character of decimal digit d. */
  function DigitChar(d: nat): (c: char)
    requires d < 10
    ensures IsDigit(c)
  {
    ('0' as int + d) as char
  }

  function DigitValue(c: char): (d: nat)
    requires IsDigit(c)
    ensures d < 10 && DigitChar(d) == c
  {
    c as int - '0' as int
  }

  /** The value of a string of decimal digits; leading zeros are allowed. */
  function NatValue(s: string): nat
    requires AllDigits(s)
  {
    if s == [] then 0 else NatValue(s[..|s| - 1]) * 10 + DigitValue(s[|s| - 1])
  }

  /** The decimal spelling of n, without leading zeros. */
  function NatStr(n: nat): (s: string)
    ensures |s| > 0 && AllDigits(s)
  {
    if n < 10 then [DigitChar(n)] else NatStr(n / 10) + [DigitChar(n % 10)]
  }

  lemma {:induction false} NatStrValue(n: nat)
    ensures NatValue(NatStr(n)) == n
  {
    if n >= 10 {
      var s := NatStr(n);
      assert s[..|s| - 1] == NatStr(n / 10);
      NatStrValue(n / 10);
    }
  }

  /** The index of the first non-digit at or after i. */
  function DigitRunEnd(s: string, i: nat): (j: nat)
    requires i <= |s|
    ensures i <= j <= |s|
    ensures AllDigits(s[i..j])
    ensures j < |s| ==> !IsDigit(s[j])
    decreases |s| - i
  {
    if i < |s| && IsDigit(s[i]) then DigitRunEnd(s, i + 1) else i
  }

  /** A run of digits that is followed by a non-digit (or the end) is read whole. */
  lemma {:induction false} DigitRunOf(s: string, i: nat, n: nat)
    requires i + n <= |s|
    requires AllDigits(s[i..i + n])
    requires i + n < |s| ==> !IsDigit(s[i + n])
    ensures DigitRunEnd(s, i) == i + n
    decreases n
  {
    if n > 0 {
      assert s[i] == s[i..i + n][0];
      assert s[i + 1..i + n] == s[i..i + n][1..];
      DigitRunOf(s, i + 1, n - 1);
    }
  }

  /** The sign of an int() or float() literal and the text after it. */
  function Unsigned(tok: string): string
  {
    if |tok| > 0 && (tok[0] == '-' || tok[0] == '+') then tok[1..] else tok
  }

  function Signed(tok: string, v: int): int
  {
    if |tok| > 0 && tok[0] == '-' then -v else v
  }

  /** int(tok) for an optionally signed string of ASCII digits; None where int() raises ValueError. */
  function ParseInt(tok: string): (r: Option<int>)
    ensures r.Some? <==> |Unsigned(tok)| > 0 && AllDigits(Unsigned(tok))
  {
    var body := Unsigned(tok);
    if |body| > 0 && AllDigits(body) then Some(Signed(tok, NatValue(body))) else None
  }

  /** The spelling str(i) of an integer. */
  function IntStr(i: int): string
  {
    if i < 0 then "-" + NatStr(-i) else NatStr(i)
  }

  lemma ParseIntStr(i: int)
    ensures ParseInt(IntStr(i)) == Some(i)
  {
    NatStrValue(if i < 0 then -i else i);
    if i < 0 {
      assert Unsigned(IntStr(i)) == NatStr(-i);
    }
  }

  function Pow10(n: nat): (p: nat)
    ensures p >= 1
  {
    if n == 0 then 1 else 10 * Pow10(n - 1)
  }

  /**
    float(tok) for plain decimal notation: an optional sign, then digits with
    an optional fraction part ("12", "12.", "12.5", ".5"). None where float()
    raises ValueError on such text.
  */
  function ParseDecimal(tok: string): (r: Option<real>)
  {
    var body := Unsigned(tok);
    var k := DigitRunEnd(body, 0);
    if k == |body| then
      if k > 0 then Some(Signed(tok, NatValue(body)) as real) else None
    else if body[k] == '.' && AllDigits(body[k + 1..]) && (k > 0 || k + 1 < |body|) then
      var whole := NatValue(body[..k]) as real;
      var frac := body[k + 1..];
      var v := whole + NatValue(frac) as real / Pow10(|frac|) as real;
      Some(if |tok| > 0 && tok[0] == '-' then -v else v)
    else None
  }

  /**
    Support for the worked examples: the sample decimal parser, which stands in
    for float() there, accepts every literal ParseInt accepts, with the same value.
  */
  lemma DecimalExtendsInt(tok: string)
    requires ParseInt(tok).Some?
    ensures ParseDecimal(tok) == Some(ParseInt(tok).value as real)
  {
    var body := Unsigned(tok);
    DigitRunOf(body, 0, |body|);
    assert body[0..|body|] == body;
  }

  lemma {:induction false} Pow10Add(a: nat, b: nat)
    ensures Pow10(a + b) == Pow10(a) * Pow10(b)
    decreases a
  {
    if a > 0 {
      Pow10Add(a - 1, b);
    }
  }
}
