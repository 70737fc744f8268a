/**
 * The few JavaScript string built-ins the program relies on, written out:
 * String.prototype.trim, Number.prototype.toString for a non-negative
 * integer, the global parseInt, and the UTF-16 length that `.length` reports.
 */
module JsString {
  import opened Common

  /** The WhiteSpace and LineTerminator code points that trim and parseInt skip. */
  predicate IsJsWhitespace(c: char) {
    || c == '\t' || c == '\n' || c == '\U{000B}' || c == '\U{000C}' || c == '\r'
    || c == ' ' || c == '\U{00A0}' || c == '\U{1680}'
    || ('\U{2000}' <= c <= '\U{200A}')
    || c == '\U{2028}' || c == '\U{2029}' || c == '\U{202F}' || c == '\U{205F}'
    || c == '\U{3000}' || c == '\U{FEFF}'
  }

  /** `s` with its leading whitespace removed: the longest whitespace prefix is dropped. */
  function TrimStart(s: string): (r: string)
    ensures |r| <= |s| && r == s[|s| - |r|..]
    ensures forall k :: 0 <= k < |s| - |r| ==> IsJsWhitespace(s[k])
    ensures r == [] || !IsJsWhitespace(r[0])
  {
    if s != [] && IsJsWhitespace(s[0]) then TrimStart(s[1..]) else s
  }

  /** `s` with its trailing whitespace removed: the longest whitespace suffix is dropped. */
  function TrimEnd(s: string): (r: string)
    ensures |r| <= |s| && r == s[..|r|]
    ensures forall k :: |r| <= k < |s| ==> IsJsWhitespace(s[k])
    ensures r == [] || !IsJsWhitespace(r[|r| - 1])
  {
    if s != [] && IsJsWhitespace(s[|s| - 1]) then TrimEnd(s[..|s| - 1]) else s
  }

  /** String.prototype.trim. */
  function Trim(s: string): string {
    TrimEnd(TrimStart(s))
  }

  /** Every character of `s` is whitespace. */
  predicate AllWhitespace(s: string) {
    forall k :: 0 <= k < |s| ==> IsJsWhitespace(s[k])
  }

  /** What trim leaves is a slice of the input with whitespace-free ends, and only whitespace was cut. */
  lemma TrimIsSlice(s: string)
    ensures exists i, j :: 0 <= i <= j <= |s| && Trim(s) == s[i..j] && AllWhitespace(s[..i]) && AllWhitespace(s[j..])
    ensures Trim(s) == [] || (!IsJsWhitespace(Trim(s)[0]) && !IsJsWhitespace(Trim(s)[|Trim(s)| - 1]))
  {
    var t := TrimStart(s);
    var e := TrimEnd(t);
    var i := |s| - |t|;
    var j := i + |e|;
    TrimStartCut(s);
    TrimEndCut(t);
    assert t == s[i..];
    assert Trim(s) == s[i..j] && s[j..] == t[|e|..] by {
      assert e == t[..|e|];
    }
    TrimEnds(s);
  }

  /** trimStart cuts a whitespace prefix. */
  lemma TrimStartCut(s: string)
    ensures AllWhitespace(s[..|s| - |TrimStart(s)|])
  {
    var i := |s| - |TrimStart(s)|;
    forall k | 0 <= k < i ensures IsJsWhitespace(s[..i][k]) {
      assert s[..i][k] == s[k];
    }
  }

  /** trimEnd cuts a whitespace suffix. */
  lemma TrimEndCut(t: string)
    ensures AllWhitespace(t[|TrimEnd(t)|..])
  {
    var j := |TrimEnd(t)|;
    forall k | 0 <= k < |t| - j ensures IsJsWhitespace(t[j..][k]) {
      assert t[j..][k] == t[j + k];
    }
  }

  /** What trim leaves neither starts nor ends with whitespace. */
  lemma TrimEnds(s: string)
    ensures Trim(s) == [] || (!IsJsWhitespace(Trim(s)[0]) && !IsJsWhitespace(Trim(s)[|Trim(s)| - 1]))
  {
    var t := TrimStart(s);
    var e := TrimEnd(t);
    if e != [] {
      assert e[0] == t[0];
    }
  }

  /** A string with no whitespace at all is left as it is by trim. */
  lemma {:induction false} TrimOfWhitespaceFree(s: string)
    requires forall k :: 0 <= k < |s| ==> !IsJsWhitespace(s[k])
    ensures Trim(s) == s
  {
    assert TrimStart(s) == s;
    assert TrimEnd(s) == s;
  }

  /** The length JavaScript reports: code points above U+FFFF take two UTF-16 code units. */
  function Utf16Length(s: string): (n: nat)
    ensures |s| <= n <= 2 * |s|
  {
    if s == [] then 0 else (if s[0] as int > 0xFFFF then 2 else 1) + Utf16Length(s[1..])
  }

  // ----- decimal output -----

  predicate IsDecimalDigit(c: char) {
    '0' <= c <= '9'
  }

  function DigitChar(d: nat): (c: char)
    requires d < 10
    ensures IsDecimalDigit(c) && DigitValue(c) == d
  {
    "0123456789"[d]
  }

  /** Number.prototype.toString() of a non-negative integer: its decimal digits, no leading zero. */
  function NatToString(n: nat): (r: string)
    ensures |r| >= 1 && (|r| > 1 ==> r[0] != '0')
    ensures forall k :: 0 <= k < |r| ==> IsDecimalDigit(r[k])
  {
    if n < 10 then [DigitChar(n)] else NatToString(n / 10) + [DigitChar(n % 10)]
  }

  // ----- parseInt -----

  /** The value of a digit in radices up to 36; 36 for anything that is not a digit. */
  function DigitValue(c: char): (d: nat)
    ensures d <= 36
  {
    if '0' <= c <= '9' then (c as int - '0' as int)
    else if 'a' <= c <= 'z' then (c as int - 'a' as int) + 10
    else if 'A' <= c <= 'Z' then (c as int - 'A' as int) + 10
    else 36
  }

  predicate IsRadixDigit(c: char, radix: nat) {
    DigitValue(c) < radix
  }

  /** The longest prefix of `s` made of radix-`radix` digits. */
  function DigitPrefix(s: string, radix: nat): (z: string)
    ensures |z| <= |s| && z == s[..|z|]
    ensures forall k :: 0 <= k < |z| ==> IsRadixDigit(z[k], radix)
    ensures |z| == |s| || !IsRadixDigit(s[|z|], radix)
  {
    if s == [] || !IsRadixDigit(s[0], radix) then [] else [s[0]] + DigitPrefix(s[1..], radix)
  }

  /** The number a string of digits denotes, most significant digit first. */
  function DigitsValue(z: string, radix: nat): nat {
    if z == [] then 0 else DigitsValue(z[..|z| - 1], radix) * radix + DigitValue(z[|z| - 1])
  }

  /**
   * The global parseInt with no radix argument: skip leading whitespace, take
   * an optional sign, switch to radix 16 after a "0x" or "0X" prefix, then read
   * the longest run of digits. None stands for NaN (no digit at all).
   */
  function ParseInt(s: string): Option<int>
  {
    var t := TrimStart(s);
    var sign := if t != [] && t[0] == '-' then -1 else 1;
    match ParseUnsigned(Unsigned(t))
    case None => None
    case Some(v) => Some(sign * v)
  }

  /** The digits after the sign: radix 16 after a "0x" or "0X" prefix, else 10; None when there are none. */
  function ParseUnsigned(u: string): Option<nat> {
    var radix := Radix(u);
    var z := DigitPrefix(Unprefixed(u), radix);
    if z == [] then None else Some(DigitsValue(z, radix))
  }

  function Unsigned(t: string): string {
    if t != [] && (t[0] == '-' || t[0] == '+') then t[1..] else t
  }

  predicate HasHexPrefix(u: string) {
    |u| >= 2 && u[0] == '0' && (u[1] == 'x' || u[1] == 'X')
  }

  function Radix(u: string): nat {
    if HasHexPrefix(u) then 16 else 10
  }

  function Unprefixed(u: string): string {
    if HasHexPrefix(u) then u[2..] else u
  }

  /** Reading back the decimal digits of `n` gives `n`. */
  lemma {:induction false} DecimalValue(n: nat)
    ensures DigitsValue(NatToString(n), 10) == n
  {
    var s := NatToString(n);
    if n >= 10 {
      DecimalValue(n / 10);
      assert s[..|s| - 1] == NatToString(n / 10);
      assert DigitValue(s[|s| - 1]) == n % 10;
    }
  }

  /** A non-empty run of decimal digits, read without a sign, is the number the digits denote. */
  lemma ParseUnsignedOfDigits(s: string)
    requires |s| >= 1 && forall k :: 0 <= k < |s| ==> IsDecimalDigit(s[k])
    ensures ParseUnsigned(s) == Some(DigitsValue(s, 10))
  {
    assert !HasHexPrefix(s) by {
      assert |s| > 1 ==> IsDecimalDigit(s[1]);
    }
    DigitPrefixOfDigits(s);
  }

  /** parseInt of a non-empty string of decimal digits is the number the digits denote. */
  lemma ParseIntOfDigits(s: string)
    requires |s| >= 1 && forall k :: 0 <= k < |s| ==> IsDecimalDigit(s[k])
    ensures ParseInt(s) == Some(DigitsValue(s, 10))
  {
    TrimStartOfDigits(s);
    ParseIntWithoutSign(s);
    ParseUnsignedOfDigits(s);
  }

  /** A string that starts with a digit has no leading whitespace to trim. */
  lemma TrimStartOfDigits(s: string)
    requires |s| >= 1 && IsDecimalDigit(s[0])
    ensures TrimStart(s) == s
  {
  }

  /** Without leading whitespace or a sign, parseInt is the unsigned reading. */
  lemma ParseIntWithoutSign(s: string)
    requires |s| >= 1 && TrimStart(s) == s && IsDecimalDigit(s[0])
    ensures ParseInt(s) == ParseUnsigned(s)
  {
    assert s[0] != '-' && Unsigned(s) == s;
  }

  /** parseInt(String(n)) == n for every non-negative integer n. */
  lemma ParseIntOfNatToString(n: nat)
    ensures ParseInt(NatToString(n)) == Some(n)
  {
    ParseIntOfDigits(NatToString(n));
    DecimalValue(n);
  }

  lemma {:induction false} DigitPrefixOfDigits(s: string)
    requires forall k :: 0 <= k < |s| ==> IsDecimalDigit(s[k])
    ensures DigitPrefix(s, 10) == s
  {
    if s != [] {
      DigitPrefixOfDigits(s[1..]);
    }
  }
}
