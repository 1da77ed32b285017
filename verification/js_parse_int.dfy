/** `parseInt(s, 16)` as the ECMAScript standard defines it (section
    "parseInt ( string, radix )" of ECMA-262), with `None` standing for `NaN`,
    and the two-digit hexadecimal notation of a colour channel. */
module JsParseInt {
  import opened Wrappers

  predicate IsHexDigit(ch: char) {
    ('0' <= ch <= '9') || ('a' <= ch <= 'f') || ('A' <= ch <= 'F')
  }

  /** The value of a hexadecimal digit (0 for any other character). */
  function DigitValue(ch: char): (v: nat)
    ensures v < 16
  {
    if '0' <= ch <= '9' then (ch - '0') as nat
    else if 'a' <= ch <= 'f' then (ch - 'a') as nat + 10
    else if 'A' <= ch <= 'F' then (ch - 'A') as nat + 10
    else 0
  }

  /** The lower-case digit for `v`. */
  function Digit(v: nat): (ch: char)
    requires v < 16
    ensures IsHexDigit(ch) && DigitValue(ch) == v
  {
    if v < 10 then ('0' as int + v) as char else ('a' as int + v - 10) as char
  }

  /** The white space and line terminators that `parseInt` skips
      (StrWhiteSpaceChar of ECMA-262, with the Zs category spelled out). */
  predicate IsJsWhiteSpace(ch: char) {
    || ch == '\t' || ch == '\U{B}' || ch == '\U{C}' || ch == ' ' || ch == '\U{A0}' || ch == '\U{FEFF}'
    || ch == '\n' || ch == '\r' || ch == '\U{2028}' || ch == '\U{2029}'
    || ch == '\U{1680}' || ch == '\U{202F}' || ch == '\U{205F}' || ch == '\U{3000}'
    || ('\U{2000}' <= ch <= '\U{200A}')
  }

  /** No hexadecimal digit is white space. */
  lemma {:induction false} HexDigitIsNotWhiteSpace(ch: char)
    requires IsHexDigit(ch)
    ensures !IsJsWhiteSpace(ch)
  {
  }

  /** `s` without its leading white space. */
  function TrimStart(s: string): (r: string)
    ensures |r| <= |s| && (|r| == |s| ==> r == s)
  {
    if |s| > 0 && IsJsWhiteSpace(s[0]) then TrimStart(s[1..]) else s
  }

  /** The number of hexadecimal digits `s` starts with. */
  function HexPrefixLength(s: string): (n: nat)
    ensures n <= |s|
  {
    if |s| > 0 && IsHexDigit(s[0]) then 1 + HexPrefixLength(s[1..]) else 0
  }

  predicate AllHex(ds: string) {
    forall i :: 0 <= i < |ds| ==> IsHexDigit(ds[i])
  }

  /** The value of a string of hexadecimal digits, most significant first. */
  function HexValue(ds: string): nat
  {
    if |ds| == 0 then 0 else 16 * HexValue(ds[..|ds| - 1]) + DigitValue(ds[|ds| - 1])
  }

  /** `t` without a leading `-` or `+`. */
  function AfterSign(t: string): (u: string)
    ensures |u| <= |t| && (|u| == |t| ==> u == t)
  {
    if |t| > 0 && (t[0] == '-' || t[0] == '+') then t[1..] else t
  }

  /** `u` without a leading `0x` or `0X`, which radix 16 allows. */
  function AfterHexPrefix(u: string): (d: string)
    ensures |d| <= |u| && (|d| == |u| ==> d == u)
  {
    if |u| >= 2 && u[0] == '0' && (u[1] == 'x' || u[1] == 'X') then u[2..] else u
  }

  /** The text `parseInt` reads its digits from. */
  function DigitText(s: string): (d: string)
    ensures |d| <= |s| && (|d| == |s| ==> d == s)
  {
    AfterHexPrefix(AfterSign(TrimStart(s)))
  }

  /** `parseInt(s, 16)`: skip white space, read an optional sign and an
      optional `0x`/`0X` prefix, then the longest run of hexadecimal digits;
      `NaN` (here `None`) when that run is empty. */
  function ParseIntHex(s: string): (r: Option<int>)
    ensures r.Some? ==> |s| > 0
  {
    var t := TrimStart(s);
    var negative := |t| > 0 && t[0] == '-';
    var digits := DigitText(s);
    var n := HexPrefixLength(digits);
    if n == 0 then None
    else
      var v: int := HexValue(digits[..n]);
      Some(if negative then -v else v)
  }

  /** Two hexadecimal digits parse as one byte, most significant first. */
  lemma {:induction false} ParseTwoDigits(h: string)
    requires |h| == 2 && IsHexDigit(h[0]) && IsHexDigit(h[1])
    ensures ParseIntHex(h) == Some(16 * DigitValue(h[0]) + DigitValue(h[1]))
  {
    HexDigitIsNotWhiteSpace(h[0]);
    assert TrimStart(h) == h;
    assert AfterSign(h) == h;
    assert AfterHexPrefix(h) == h;
    assert HexPrefixLength(h) == 2 by {
      assert HexPrefixLength(h[1..]) == 1;
    }
    assert h[..2] == h;
    assert h == [h[0], h[1]];
    HexValueTwo(h[0], h[1]);
  }

  lemma {:induction false} HexValueOne(c: char)
    requires IsHexDigit(c)
    ensures HexValue([c]) == DigitValue(c)
  {
    assert [c][..0] == [];
  }

  lemma {:induction false} HexValueTwo(c0: char, c1: char)
    requires IsHexDigit(c0) && IsHexDigit(c1)
    ensures HexValue([c0, c1]) == 16 * DigitValue(c0) + DigitValue(c1)
  {
    assert [c0, c1][..1] == [c0];
    HexValueOne(c0);
  }
}
