/**
 * `int.TryParse(string, out int)` with the default `NumberStyles.Integer`
 * and culture-invariant signs: optional leading and trailing white space
 * (tab, line feed, vertical tab, form feed, carriage return, space), an
 * optional '+' or '-', then one or more decimal digits, and a value that
 * fits a signed 32-bit integer. `Format` renders an integer the way
 * `int.ToString()` does and is the inverse on that range.
 */
module Int32Parse {
  import opened Options
  import TextOps

  const Int32Min: int := -0x8000_0000
  const Int32Max: int := 0x7FFF_FFFF

  predicate InInt32(n: int) {
    Int32Min <= n <= Int32Max
  }

  predicate IsDigit(ch: char) {
    '0' <= ch <= '9'
  }

  /** Every character of `s` is a decimal digit. */
  predicate AllDigits(s: string) {
    s == "" || (AllDigits(s[..|s| - 1]) && IsDigit(s[|s| - 1]))
  }

  lemma {:induction false} AllDigitsIff(s: string)
    ensures AllDigits(s) <==> forall i :: 0 <= i < |s| ==> IsDigit(s[i])
    decreases |s|
  {
    if s != "" {
      var init := s[..|s| - 1];
      AllDigitsIff(init);
      assert forall i :: 0 <= i < |init| ==> init[i] == s[i];
    }
  }

  function DigitValue(ch: char): (d: nat)
    requires IsDigit(ch)
    ensures d < 10
  {
    (ch as int) - ('0' as int)
  }

  function DigitChar(d: nat): (ch: char)
    requires d < 10
    ensures IsDigit(ch) && DigitValue(ch) == d
  {
    (('0' as int) + d) as char
  }

  /** The value of a string of decimal digits, most significant first. */
  function DigitsValue(s: string): nat
    requires AllDigits(s)
  {
    if s == "" then 0 else DigitsValue(s[..|s| - 1]) * 10 + DigitValue(s[|s| - 1])
  }

  /** `int.TryParse`: `Some(v)` exactly when it returns true with `v`. */
  function TryParse(s: string): (r: Option<int>)
    ensures r.Some? ==> InInt32(r.value)
  {
    var core := TextOps.Strip(s, TextOps.NumberWhite);
    if core == "" then None
    else
      var negative := core[0] == '-';
      var digits := if core[0] == '-' || core[0] == '+' then core[1..] else core;
      if digits == "" || !AllDigits(digits) then None
      else
        var magnitude: int := DigitsValue(digits);
        var v := if negative then -magnitude else magnitude;
        if InInt32(v) then Some(v) else None
  }

  /** Decimal digits of a natural number, without leading zeros. */
  function NatText(n: nat): (s: string)
    ensures s != "" && AllDigits(s)
  {
    if n < 10 then
      var s := [DigitChar(n)];
      assert s[..0] == "";
      s
    else
      var init := NatText(n / 10);
      var s := init + [DigitChar(n % 10)];
      assert s[..|s| - 1] == init;
      s
  }

  /** `int.ToString()`: a '-' for negative values, then the digits. */
  function Format(n: int): string {
    if n < 0 then "-" + NatText(-n) else NatText(n)
  }

  lemma {:induction false} DigitsValueOfNatText(n: nat)
    ensures DigitsValue(NatText(n)) == n
  {
    if n >= 10 {
      var s := NatText(n);
      assert s[..|s| - 1] == NatText(n / 10);
      DigitsValueOfNatText(n / 10);
    }
  }

  lemma StripNoWhite(s: string)
    requires s != "" && !TextOps.IsNumberWhite(s[0]) && !TextOps.IsNumberWhite(s[|s| - 1])
    ensures TextOps.Strip(s, TextOps.NumberWhite) == s
  {
    TextOps.StripOfPadded("", s, "", TextOps.NumberWhite);
    assert "" + s + "" == s;
  }

  /** Parsing what Format prints recovers every 32-bit value. */
  lemma ParseFormat(n: int)
    requires InInt32(n)
    ensures TryParse(Format(n)) == Some(n)
  {
    var s := Format(n);
    if n < 0 {
      var d := NatText(-n);
      AllDigitsIff(d);
      assert s[|s| - 1] == d[|d| - 1];
      StripNoWhite(s);
      assert s[1..] == d;
      DigitsValueOfNatText(-n);
    } else {
      AllDigitsIff(s);
      StripNoWhite(s);
      DigitsValueOfNatText(n);
    }
  }

  /**
   * The error path: a string of digits (leading zeros allowed) whose value
   * exceeds 2147483647 does not parse, bare or after '+'; after '-' it does
   * not parse once its value exceeds 2147483648.
   */
  lemma ParseOverflow(d: string)
    requires d != "" && AllDigits(d) && DigitsValue(d) > Int32Max
    ensures TryParse(d) == None
    ensures TryParse("+" + d) == None
    ensures DigitsValue(d) > -Int32Min ==> TryParse("-" + d) == None
  {
    AllDigitsIff(d);
    StripNoWhite(d);
    SignedNoWhite('+', d);
    SignedNoWhite('-', d);
  }

  /** A sign followed by digits has no white space to strip, and the digits follow the sign. */
  lemma SignedNoWhite(sign: char, d: string)
    requires sign == '+' || sign == '-'
    requires d != "" && forall i :: 0 <= i < |d| ==> IsDigit(d[i])
    ensures TextOps.Strip([sign] + d, TextOps.NumberWhite) == [sign] + d
    ensures ([sign] + d)[1..] == d
  {
    var s := [sign] + d;
    assert s[|s| - 1] == d[|d| - 1];
    StripNoWhite(s);
  }

  /** A string without a single digit does not parse. */
  lemma ParseNeedsDigit(s: string)
    requires forall i :: 0 <= i < |s| ==> !IsDigit(s[i])
    ensures TryParse(s) == None
  {
    var core := TextOps.Strip(s, TextOps.NumberWhite);
    TextOps.StripIsInfix(s, TextOps.NumberWhite);
    if core != "" {
      var j := if core[0] == '-' || core[0] == '+' then 1 else 0;
      if j < |core| {
        assert core[j] == s[TextOps.StripStart(s, TextOps.NumberWhite) + j];
        AllDigitsIff(core[j..]);
      }
    }
  }
}
