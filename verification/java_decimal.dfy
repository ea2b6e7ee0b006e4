/**
 Base-10 conversion between Java `int`s and strings, restricted to ASCII:
 `Integer.parseInt(s)` and `Integer.toString(n)` (the latter is what string
 concatenation of an `int` produces).
 */
module JavaDecimal {

  import opened Optional
  import JavaInt

  predicate IsDigit(c: char) {
    '0' <= c <= '9'
  }

  predicate AllDigits(s: string) {
    forall i :: 0 <= i < |s| ==> IsDigit(s[i])
  }

  function DigitValue(c: char): (d: nat)
    requires IsDigit(c)
    ensures d < 10
  {
    (c as int) - ('0' as int)
  }

  function DigitChar(d: nat): (c: char)
    requires d < 10
    ensures IsDigit(c) && DigitValue(c) == d
  {
    (('0' as int) + d) as char
  }

  /** The value of a numeral, most significant digit first; leading zeros are
      allowed and the empty numeral is worth 0. */
  function NumeralValue(s: string): nat
    requires AllDigits(s)
  {
    if |s| == 0 then 0 else NumeralValue(s[..|s| - 1]) * 10 + DigitValue(s[|s| - 1])
  }

  /** `Integer.parseInt(s)`: an optional sign, then at least one digit, and the
      value must fit an `int`; `None` stands for the `NumberFormatException`. */
  function ParseInt(s: string): (r: Option<int>)
    ensures r.Some? ==> JavaInt.IsInt32(r.value)
    ensures r.Some? ==> |s| > 0
    ensures r.Some? && s[0] != '-' ==> r.value >= 0
  {
    if |s| == 0 then None
    else if s[0] == '-' || s[0] == '+' then
      var body := s[1..];
      if |body| == 0 || !AllDigits(body) then None
      else
        var v: int := if s[0] == '-' then -(NumeralValue(body) as int) else NumeralValue(body);
        if JavaInt.IsInt32(v) then Some(v) else None
    else if AllDigits(s) && NumeralValue(s) <= JavaInt.MAX then Some(NumeralValue(s))
    else None
  }

  /** A string without sign characters parses exactly when it is a non-empty
      run of digits whose value fits an `int`, and then to that value. */
  lemma ParseUnsigned(s: string)
    requires forall i :: 0 <= i < |s| ==> s[i] != '-' && s[i] != '+'
    ensures ParseInt(s).Some? <==> |s| > 0 && AllDigits(s) && NumeralValue(s) <= JavaInt.MAX
    ensures ParseInt(s).Some? ==> ParseInt(s).value == NumeralValue(s)
  {
  }

  /** The canonical numeral of `n`: no sign, no leading zero. */
  function FormatNat(n: nat): (r: string)
    ensures |r| > 0 && AllDigits(r)
    ensures NumeralValue(r) == n
    ensures r[0] == '0' ==> r == "0"
    decreases n
  {
    if n < 10 then [DigitChar(n)]
    else
      var prefix := FormatNat(n / 10);
      var r := prefix + [DigitChar(n % 10)];
      assert r[..|r| - 1] == prefix;
      r
  }

  /** `Integer.toString(n)`: a minus sign for negative values, then the
      canonical numeral of the magnitude. */
  function FormatInt(n: int): (r: string)
    ensures |r| > 0 && (r[0] == '-' <==> n < 0)
    ensures n >= 0 ==> AllDigits(r) && NumeralValue(r) == n
    ensures n < 0 ==> AllDigits(r[1..]) && NumeralValue(r[1..]) == -n
    ensures n >= 0 && r[0] == '0' ==> r == "0"
    ensures n < 0 ==> r[1] != '0'
  {
    if n < 0 then "-" + FormatNat(-n) else FormatNat(n)
  }

  /** Formatting then parsing an `int` gives it back, so a client reading a
      `RESULT` line recovers the server's value. */
  lemma {:induction false} FormatParseRoundTrip(n: int)
    requires JavaInt.IsInt32(n)
    ensures ParseInt(FormatInt(n)) == Some(n)
  {
    if n < 0 {
      var s := FormatInt(n);
      assert s[1..] == FormatNat(-n);
    } else {
      assert FormatInt(n)[0] != '-';
    }
  }
}
