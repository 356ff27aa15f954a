/** The two JavaScript number/string conversions the application relies on:
    printing an integer in a template literal (`${id}`) and converting a
    string back with unary `+` or `Number(...)`.  Identifiers travel between
    the two as strings (session user ids, form fields, cache keys), so their
    round trip is what makes ownership checks and key naming sound. */
module JsNumbers {
  import opened Wrappers

  predicate IsDigit(c: char) {
    '0' <= c <= '9'
  }

  predicate AllDigits(s: string) {
    forall i :: 0 <= i < |s| ==> IsDigit(s[i])
  }

  function DigitChar(d: nat): (c: char)
    requires d < 10
    ensures IsDigit(c) && c as int - '0' as int == d
  {
    ('0' as int + d) as char
  }

  /** `${n}` for a non-negative integer: its shortest decimal numeral. */
  function NatToDecimal(n: nat): (s: string)
    ensures |s| > 0 && AllDigits(s)
    ensures s[0] == '0' ==> |s| == 1
    decreases n
  {
    if n < 10 then [DigitChar(n)] else NatToDecimal(n / 10) + [DigitChar(n % 10)]
  }

  /** The value of a numeral, most significant digit first. */
  function DigitsValue(s: string): nat
    requires AllDigits(s)
  {
    if s == [] then 0 else DigitsValue(s[..|s| - 1]) * 10 + (s[|s| - 1] as int - '0' as int)
  }

  lemma {:induction false} NatToDecimalRoundTrip(n: nat)
    ensures DigitsValue(NatToDecimal(n)) == n
    decreases n
  {
    if n >= 10 {
      NatToDecimalRoundTrip(n / 10);
      var s := NatToDecimal(n);
      assert s[..|s| - 1] == NatToDecimal(n / 10);
    }
  }

  /** `${i}` for an integer below 10^21 in magnitude (a leading `-` for
      negatives); JavaScript prints larger numbers in exponent notation,
      which this function does not model. */
  function IntToDecimal(i: int): (s: string)
    ensures |s| > 0
    ensures s[0] == '-' <==> i < 0
  {
    if i < 0 then "-" + NatToDecimal(-i) else NatToDecimal(i)
  }

  /** The characters ECMAScript's StringToNumber strips from both ends:
      WhiteSpace (TAB, VT, FF, SP, NBSP, ZWNBSP and the Unicode "Zs"
      spaces) and LineTerminator (LF, CR, LS, PS). */
  predicate IsJsWhitespace(c: char) {
    || c == '\t' || c == '\n' || c == '\U{B}' || c == '\U{C}' || c == '\r' || c == ' '
    || c == '\U{A0}' || c == '\U{1680}' || ('\U{2000}' <= c <= '\U{200A}')
    || c == '\U{2028}' || c == '\U{2029}' || c == '\U{202F}' || c == '\U{205F}'
    || c == '\U{3000}' || c == '\U{FEFF}'
  }

  function TrimStart(s: string): (r: string)
    ensures r == [] || !IsJsWhitespace(r[0])
    ensures |s| > 0 && !IsJsWhitespace(s[0]) ==> r == s
    ensures forall c :: c in s && !IsJsWhitespace(c) ==> c in r
    decreases |s|
  {
    if s != [] && IsJsWhitespace(s[0]) then TrimStart(s[1..]) else s
  }

  function TrimEnd(s: string): (r: string)
    ensures r == [] || !IsJsWhitespace(r[|r| - 1])
    ensures |r| <= |s| && r == s[..|r|]
    ensures |s| > 0 && !IsJsWhitespace(s[|s| - 1]) ==> r == s
    ensures forall c :: c in s && !IsJsWhitespace(c) ==> c in r
    decreases |s|
  {
    if s != [] && IsJsWhitespace(s[|s| - 1]) then TrimEnd(s[..|s| - 1]) else s
  }

  predicate AllWhitespace(w: string) {
    forall i :: 0 <= i < |w| ==> IsJsWhitespace(w[i])
  }

  /** Leading whitespace is skipped entirely. */
  lemma {:induction false} TrimStartWhitePrefix(w: string, x: string)
    requires AllWhitespace(w)
    ensures TrimStart(w + x) == TrimStart(x)
    decreases |w|
  {
    if w != [] {
      assert (w + x)[0] == w[0] && (w + x)[1..] == w[1..] + x;
      TrimStartWhitePrefix(w[1..], x);
    } else {
      assert w + x == x;
    }
  }

  /** Trailing whitespace is skipped entirely. */
  lemma {:induction false} TrimEndWhiteSuffix(y: string, w: string)
    requires AllWhitespace(w)
    ensures TrimEnd(y + w) == TrimEnd(y)
    decreases |w|
  {
    if w != [] {
      var front, c := y + w[..|w| - 1], w[|w| - 1];
      assert w == w[..|w| - 1] + [c];
      assert y + w == front + [c];
      assert (front + [c])[..|front|] == front;
      TrimEndWhiteSuffix(y, w[..|w| - 1]);
    } else {
      assert y + w == y;
    }
  }

  /** Stripping the front of x + w either reaches into w (x is blank) or
      stops inside x. */
  lemma {:induction false} TrimStartAppend(x: string, w: string)
    ensures AllWhitespace(x) ==> TrimStart(x + w) == TrimStart(w)
    ensures !AllWhitespace(x) ==> TrimStart(x + w) == TrimStart(x) + w
    decreases |x|
  {
    if x == [] {
      assert x + w == w;
    } else {
      assert (x + w)[0] == x[0] && (x + w)[1..] == x[1..] + w;
      if IsJsWhitespace(x[0]) {
        TrimStartAppend(x[1..], w);
        assert AllWhitespace(x) <==> AllWhitespace(x[1..]) by {
          if AllWhitespace(x[1..]) {
            forall i | 0 <= i < |x|
              ensures IsJsWhitespace(x[i])
            {
              if i > 0 { assert x[i] == x[1..][i - 1]; }
            }
          }
        }
      }
    }
  }

  /** `s` without the whitespace StringToNumber ignores at either end. */
  function Trim(s: string): (t: string)
    ensures t == [] || (!IsJsWhitespace(t[0]) && !IsJsWhitespace(t[|t| - 1]))
    ensures forall c :: c in s && !IsJsWhitespace(c) ==> c in t
  {
    TrimEnd(TrimStart(s))
  }

  /** An optionally signed run of decimal digits, or None. */
  function ParseInteger(t: string): (r: Option<int>)
    ensures AllDigits(t) && t != [] ==> r == Some(DigitsValue(t))
  {
    if t != [] && (t[0] == '+' || t[0] == '-') then
      var digits := t[1..];
      if digits != [] && AllDigits(digits) then
        var v: int := DigitsValue(digits);
        Some(if t[0] == '-' then -v else v)
      else None
    else if t != [] && AllDigits(t) then Some(DigitsValue(t))
    else None
  }

  /** Unary `+s` (equivalently `Number(s)`) restricted to integer results:
      surrounding whitespace is ignored, a blank string is 0, and an
      optionally signed run of decimal digits is its value.  Every other
      string yields None, standing for NaN, which equals no number. */
  function ToNumber(s: string): (r: Option<int>)
    ensures AllDigits(s) ==> r == Some(DigitsValue(s))
    ensures AllWhitespace(s) ==> r == Some(0)
  {
    TrimBlank(s);
    var t := Trim(s);
    if t == [] then Some(0) else ParseInteger(t)
  }

  /** A blank string trims to nothing. */
  lemma TrimBlank(s: string)
    ensures AllWhitespace(s) ==> Trim(s) == []
  {
    if AllWhitespace(s) {
      TrimStartWhitePrefix(s, []);
      assert s + [] == s;
    }
  }

  /** Whitespace around a numeric string does not change its value. */
  lemma ToNumberIgnoresWhitespace(w1: string, s: string, w2: string)
    requires AllWhitespace(w1) && AllWhitespace(w2)
    ensures ToNumber(w1 + s + w2) == ToNumber(s)
  {
    assert w1 + s + w2 == w1 + (s + w2);
    TrimStartWhitePrefix(w1, s + w2);
    TrimStartAppend(s, w2);
    if AllWhitespace(s) {
      TrimStartWhitePrefix(w2, []);
      TrimStartWhitePrefix(s, []);
      assert w2 + [] == w2 && s + [] == s;
    } else {
      TrimEndWhiteSuffix(TrimStart(s), w2);
    }
    assert Trim(w1 + s + w2) == Trim(s);
  }

  lemma NatToNumber(n: nat)
    ensures ToNumber(NatToDecimal(n)) == Some(n)
  {
    NatToDecimalRoundTrip(n);
  }

  lemma NegativeToNumber(i: int)
    requires i < 0
    ensures ToNumber(IntToDecimal(i)) == Some(i)
  {
    var d := NatToDecimal(-i);
    assert IntToDecimal(i) == "-" + d;
    NatToDecimalRoundTrip(-i);
    SignedDigitsToNumber(d, -i);
  }

  lemma SignedDigitsToNumber(d: string, n: nat)
    requires d != [] && AllDigits(d) && DigitsValue(d) == n
    ensures ToNumber("-" + d) == Some(0 - n as int)
  {
    var s := "-" + d;
    assert s[|s| - 1] == d[|d| - 1];
    TrimUnchanged(s);
    ParseNegative(d);
  }

  lemma ParseNegative(d: string)
    requires d != [] && AllDigits(d)
    ensures ParseInteger("-" + d) == Some(0 - DigitsValue(d))
  {
    var t := "-" + d;
    assert t[0] == '-' && t[1..] == d;
  }

  lemma TrimUnchanged(s: string)
    requires s != [] && !IsJsWhitespace(s[0]) && !IsJsWhitespace(s[|s| - 1])
    ensures Trim(s) == s
  {
    assert TrimStart(s) == s;
  }

  /** Reading back a printed integer gives the integer. */
  lemma IntToDecimalRoundTrip(i: int)
    ensures ToNumber(IntToDecimal(i)) == Some(i)
  {
    if i < 0 {
      NegativeToNumber(i);
    } else {
      NatToNumber(i);
    }
  }

  /** A string holding any character that is neither a digit, a sign nor
      whitespace is read as NaN by this integer-only model of `+`. */
  lemma ToNumberOfNonNumeric(s: string, i: nat)
    requires i < |s|
    requires !IsDigit(s[i]) && !IsJsWhitespace(s[i]) && s[i] != '+' && s[i] != '-'
    ensures ToNumber(s) == None
  {
    var t := Trim(s);
    var c := s[i];
    assert c in t;
    if t[0] == '+' || t[0] == '-' {
      assert c in t[1..] by { assert t == [t[0]] + t[1..]; }
    }
  }

  /** Distinct integers print differently. */
  lemma IntToDecimalInjective(a: int, b: int)
    ensures IntToDecimal(a) == IntToDecimal(b) <==> a == b
  {
    IntToDecimalRoundTrip(a);
    IntToDecimalRoundTrip(b);
  }
}
