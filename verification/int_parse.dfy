/**
 * `int.TryParse(s, out value)` as the console uses it: the default
 * `NumberStyles.Integer` with the invariant culture. Leading and trailing
 * white space (U+0009..U+000D and U+0020) is allowed, then an optional `+`
 * or `-`, then one or more ASCII digits; a value outside the 32-bit range
 * is a failure, not a wrap-around.
 */
module IntParse {
  import opened Strings

  datatype Option<T> = None | Some(value: T)

  const Int32Min: int := -0x8000_0000
  const Int32Max: int := 0x7FFF_FFFF

  predicate InInt32(v: int) {
    Int32Min <= v <= Int32Max
  }

  predicate IsDigit(c: char) {
    '0' <= c <= '9'
  }

  predicate AllDigits(s: string) {
    forall i :: 0 <= i < |s| ==> IsDigit(s[i])
  }

  function DigitValue(c: char): (d: nat)
    requires IsDigit(c)
    ensures d < 10
  {
    c as int - '0' as int
  }

  function DigitChar(d: nat): (c: char)
    requires d < 10
    ensures IsDigit(c) && DigitValue(c) == d
  {
    ('0' as int + d) as char
  }

  /** The number a run of decimal digits denotes, most significant first. */
  function DigitsValue(s: string): nat
    requires AllDigits(s)
  {
    if |s| == 0 then 0
    else DigitsValue(s[..|s| - 1]) * 10 + DigitValue(s[|s| - 1])
  }

  /** Decimal digits of `n` without leading zeros (`"0"` for zero). */
  function NatDigits(n: nat): (s: string)
    ensures |s| >= 1 && AllDigits(s)
    ensures DigitsValue(s) == n
  {
    if n < 10 then [DigitChar(n)]
    else
      var s := NatDigits(n / 10) + [DigitChar(n % 10)];
      assert s[..|s| - 1] == NatDigits(n / 10);
      s
  }

  /** `v.ToString()` for the invariant culture. */
  function Show(v: int): (s: string)
    ensures |s| >= 1
  {
    if v < 0 then "-" + NatDigits(-v) else NatDigits(v)
  }

  /** A trimmed numeral: an optional sign, then one or more digits, within 32 bits. */
  function ParseSigned(t: string): (r: Option<int>)
    ensures r.Some? ==> InInt32(r.value)
  {
    if |t| > 0 && t[0] == '-' then ParseMagnitude(t[1..], true)
    else if |t| > 0 && t[0] == '+' then ParseMagnitude(t[1..], false)
    else ParseMagnitude(t, false)
  }

  function ParseMagnitude(digits: string, negative: bool): (r: Option<int>)
    ensures r.Some? ==> InInt32(r.value)
  {
    if |digits| == 0 || !AllDigits(digits) then None
    else
      var magnitude: int := DigitsValue(digits);
      var v := if negative then -magnitude else magnitude;
      if InInt32(v) then Some(v) else None
  }

  /** `int.TryParse`: `Some(value)` on success, `None` where it returns false. */
  function TryParse(s: string): (r: Option<int>)
    ensures r.Some? ==> InInt32(r.value)
  {
    ParseSigned(TrimBy(s, NumberWhite))
  }

  /** A rendered value is a sign and digits, ending in a digit. */
  lemma ShowShape(v: int)
    ensures forall i :: 0 <= i < |Show(v)| ==> Show(v)[i] == '-' || IsDigit(Show(v)[i])
    ensures IsDigit(Show(v)[|Show(v)| - 1])
  {
    var s := Show(v);
    if v < 0 {
      assert forall i :: 1 <= i < |s| ==> s[i] == NatDigits(-v)[i - 1];
    }
  }
  /** A rendered value needs no trimming before it is parsed. */
  lemma ShowTrimmed(v: int)
    ensures TryParse(Show(v)) == ParseSigned(Show(v))
  {
    ShowShape(v);
    var s := Show(v);
    assert !IsNumberWhite(s[0]) && !IsNumberWhite(s[|s| - 1]);
    TrimByTrimmed(s, NumberWhite);
  }

  /** Parsing a rendered value strips its sign and reads back the digits. */
  lemma ShowSigned(v: int)
    ensures ParseSigned(Show(v)) == ParseMagnitude(NatDigits(if v < 0 then -v else v), v < 0)
  {
    var s := Show(v);
    if v < 0 {
      assert s[1..] == NatDigits(-v);
    } else {
      assert IsDigit(s[0]);
    }
  }

  /** Every 32-bit value survives rendering and parsing back. */
  lemma ParseShow(v: int)
    requires InInt32(v)
    ensures TryParse(Show(v)) == Some(v)
  {
    ShowTrimmed(v);
    ShowSigned(v);
  }

  /** The value a sign (`""`, `"+"` or `"-"`) and a run of digits denote. */
  function SignedValue(sign: string, digits: string): int
    requires AllDigits(digits)
  {
    var magnitude: int := DigitsValue(digits);
    if sign == "-" then -magnitude else magnitude
  }

  /**
   * The accepted form: an optional sign and one or more digits, leading zeros
   * allowed, parse to the value they denote when it fits in 32 bits and fail
   * otherwise.
   */
  lemma ParseSignedDigits(sign: string, digits: string)
    requires sign == "" || sign == "+" || sign == "-"
    requires |digits| > 0 && AllDigits(digits)
    ensures InInt32(SignedValue(sign, digits)) ==> TryParse(sign + digits) == Some(SignedValue(sign, digits))
    ensures !InInt32(SignedValue(sign, digits)) ==> TryParse(sign + digits) == None
  {
    var s := sign + digits;
    assert s[|s| - 1] == digits[|digits| - 1];
    assert IsDigit(s[|s| - 1]);
    if sign == "" {
      assert s == digits;
      assert IsDigit(s[0]);
    } else {
      assert s[0] == sign[0];
      assert s[1..] == digits;
    }
    TrimByTrimmed(s, NumberWhite);
  }

  /** Only the accepted form parses: a success is a trimmed sign and digits, read as their value. */
  lemma ParseAccepted(s: string)
    requires TryParse(s).Some?
    ensures exists sign, digits ::
              && (sign == "" || sign == "+" || sign == "-")
              && |digits| > 0 && AllDigits(digits)
              && TrimBy(s, NumberWhite) == sign + digits
              && TryParse(s) == Some(SignedValue(sign, digits))
  {
    var t := TrimBy(s, NumberWhite);
    if |t| > 0 && (t[0] == '-' || t[0] == '+') {
      var sign := [t[0]];
      assert t == sign + t[1..];
      assert TryParse(s) == Some(SignedValue(sign, t[1..]));
    } else {
      assert t == "" + t;
      assert TryParse(s) == Some(SignedValue("", t));
    }
  }

  /** White space around a numeral is ignored. */
  lemma ParsePadded(left: string, s: string, right: string)
    requires All(left, NumberWhite) && All(right, NumberWhite)
    requires TrimmedBy(s, NumberWhite) && |s| > 0
    ensures TryParse(left + s + right) == TryParse(s)
  {
    TrimByPadded(left, s, right, NumberWhite);
    TrimByTrimmed(s, NumberWhite);
  }

  /** A numeral with no digit at all, the empty one included, fails to parse. */
  lemma ParseNeedsDigit(s: string)
    requires forall i :: 0 <= i < |s| ==> !IsDigit(s[i])
    ensures TryParse(s) == None
  {
    var t := TrimStartBy(s, NumberWhite);
    assert t == s[|s| - |t|..];
    var r := TrimEndBy(t, NumberWhite);
    assert r == t[..|r|];
    assert TrimBy(s, NumberWhite) == r;
    assert forall i :: 0 <= i < |r| ==> !IsDigit(r[i]);
    if |r| > 0 {
      NoDigitNoMagnitude(r[1..], true);
      NoDigitNoMagnitude(r[1..], false);
    }
    NoDigitNoMagnitude(r, false);
  }

  lemma NoDigitNoMagnitude(digits: string, negative: bool)
    requires forall i :: 0 <= i < |digits| ==> !IsDigit(digits[i])
    ensures ParseMagnitude(digits, negative) == None
  {
    if |digits| > 0 {
      assert !IsDigit(digits[0]);
    }
  }

  /** A value beyond the 32-bit range fails instead of wrapping. */
  lemma ParseRejectsOverflow(v: int)
    requires !InInt32(v)
    ensures TryParse(Show(v)) == None
  {
    ShowTrimmed(v);
    ShowSigned(v);
  }
}
