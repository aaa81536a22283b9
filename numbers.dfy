/** Python's view of decimal numbers, as the readers and the store use it:
    `str.isdigit`, `int(...)` on strings and floats, and `unicode(int(...))`. */
module Numbers {
  import opened Options

  predicate IsDigit(c: char) {
    '0' <= c <= '9'
  }

  /** Every character is an ASCII decimal digit (the empty string included). */
  predicate AllDigits(s: string) {
    forall i :: 0 <= i < |s| ==> IsDigit(s[i])
  }

  /** `s.isdigit()`: non-empty and made of decimal digits only. */
  predicate IsDigits(s: string) {
    |s| > 0 && AllDigits(s)
  }

  function DigitValue(c: char): nat
    requires IsDigit(c)
  {
    c as int - '0' as int
  }

  function DigitChar(d: nat): char
    requires d < 10
  {
    ('0' as int + d) as char
  }

  /** The value of a string of decimal digits, most significant digit first. */
  function DigitsValue(s: string): nat
    requires AllDigits(s)
  {
    if |s| == 0 then 0 else DigitsValue(s[..|s| - 1]) * 10 + DigitValue(s[|s| - 1])
  }

  /** `unicode(n)` for a non-negative integer: its shortest decimal spelling. */
  function ShowNat(n: nat): string
  {
    if n < 10 then [DigitChar(n)] else ShowNat(n / 10) + [DigitChar(n % 10)]
  }

  /** The digit string with its redundant leading zeros removed ("007" becomes "7", "000" becomes "0"). */
  function StripLeadingZeros(s: string): string
  {
    if |s| > 1 && s[0] == '0' then StripLeadingZeros(s[1..]) else s
  }

  /** The white space `int()` skips in this model: the ASCII space and `\t` to `\r`.
      The further white space Python 2 recognises in a unicode string (`\x1c` to `\x1f`
      and non-ASCII spaces) is not modelled. */
  predicate IsSpace(c: char) {
    c == ' ' || 9 <= c as int <= 13
  }

  function StripRight(s: string): string
  {
    if |s| > 0 && IsSpace(s[|s| - 1]) then StripRight(s[..|s| - 1]) else s
  }

  function StripLeft(s: string): string
  {
    if |s| > 0 && IsSpace(s[0]) then StripLeft(s[1..]) else s
  }

  /** `int(s)` for a string: surrounding white space, an optional sign, white space
      again, then decimal digits; anything else raises `ValueError`, modelled as `None`. */
  function IntOfString(s: string): Option<int>
  {
    var t := StripLeft(StripRight(s));
    if |t| > 0 && (t[0] == '-' || t[0] == '+') then
      var u := StripLeft(t[1..]);
      if IsDigits(u) then
        Some(if t[0] == '-' then 0 - DigitsValue(u) as int else DigitsValue(u))
      else None
    else if IsDigits(t) then Some(DigitsValue(t))
    else None
  }

  /** `int(x)` for a float: truncation toward zero. */
  function Trunc(x: real): (r: int)
    ensures 0.0 <= x ==> r as real <= x < r as real + 1.0
    ensures x < 0.0 ==> r as real - 1.0 < x <= r as real
  {
    if x >= 0.0 then x.Floor else -((-x).Floor)
  }

  /** `unicode(n)` reads back as `n`, is a digit string, and has no leading zero unless it is "0". */
  lemma {:induction false} ShowNatRoundTrip(n: nat)
    ensures IsDigits(ShowNat(n))
    ensures DigitsValue(ShowNat(n)) == n
    ensures ShowNat(n)[0] == '0' ==> n == 0 && |ShowNat(n)| == 1
  {
    if n >= 10 {
      ShowNatRoundTrip(n / 10);
      var s := ShowNat(n);
      assert s[..|s| - 1] == ShowNat(n / 10);
    }
  }

  /** A leading zero does not change the value of a digit string. */
  lemma {:induction false} LeadingZeroValue(s: string)
    requires IsDigits(s) && s[0] == '0'
    ensures DigitsValue(s) == DigitsValue(s[1..])
  {
    if |s| > 1 {
      var p := s[..|s| - 1];
      LeadingZeroValue(p);
      assert s[1..][..|s[1..]| - 1] == p[1..];
    }
  }

  /** A digit string whose first digit is not zero denotes a positive number. */
  lemma {:induction false} NonZeroLeadingValue(s: string)
    requires IsDigits(s) && s[0] != '0'
    ensures DigitsValue(s) >= 1
  {
    if |s| > 1 {
      NonZeroLeadingValue(s[..|s| - 1]);
    }
  }

  /** A digit string without redundant leading zeros is the spelling of its own value. */
  lemma {:induction false} CanonicalRoundTrip(s: string)
    requires IsDigits(s) && (s[0] != '0' || |s| == 1)
    ensures ShowNat(DigitsValue(s)) == s
  {
    var n := |s|;
    if n > 1 {
      var p := s[..n - 1];
      NonZeroLeadingValue(p);
      CanonicalRoundTrip(p);
      var v := DigitsValue(s);
      assert v / 10 == DigitsValue(p) && v % 10 == DigitValue(s[n - 1]);
      assert s == p + [s[n - 1]];
    }
  }

  /** `unicode(int(s))` on a digit string strips its leading zeros, so "007" and "7" give the same key. */
  lemma {:induction false} ShowNatOfDigits(s: string)
    requires IsDigits(s)
    ensures ShowNat(DigitsValue(s)) == StripLeadingZeros(s)
  {
    if |s| > 1 && s[0] == '0' {
      LeadingZeroValue(s);
      ShowNatOfDigits(s[1..]);
    } else {
      CanonicalRoundTrip(s);
    }
  }

  /** On a digit string, Python's `int()` is the decimal value. */
  lemma IntOfDigits(s: string)
    requires IsDigits(s)
    ensures IntOfString(s) == Some(DigitsValue(s))
  {
  }

  /** Two digit strings name the same integer exactly when they agree once leading zeros are stripped. */
  lemma SameValueIffSameStripped(s: string, t: string)
    requires IsDigits(s) && IsDigits(t)
    ensures DigitsValue(s) == DigitsValue(t) <==> StripLeadingZeros(s) == StripLeadingZeros(t)
  {
    ShowNatOfDigits(s);
    ShowNatOfDigits(t);
    ShowNatRoundTrip(DigitsValue(s));
    ShowNatRoundTrip(DigitsValue(t));
  }

  /** White space may separate the sign from the digits, and surround the whole number. */
  lemma SignedWithSpaces()
    ensures IntOfString("- 5") == Some(-5)
    ensures IntOfString(" +\t42 ") == Some(42)
    ensures IntOfString("-") == None && IntOfString("5 5") == None
  {
    assert StripLeft(StripRight("- 5")) == "- 5";
    assert StripLeft(" 5") == "5";
    assert StripRight(" +\t42 ") == " +\t42";
    assert StripLeft(" +\t42") == "+\t42";
    assert StripLeft("\t42") == "42";
    assert DigitsValue("42") == 42;
  }
}
