/** A colour channel as it appears in `#rrggbb`: two hexadecimal digits,
    read back by `parseInt(_, 16)`. */
module HexChannels {
  import opened Wrappers
  import opened JsParseInt

  /** A channel value written as exactly two lower-case hexadecimal digits. */
  function Hex2(v: nat): (h: string)
    requires v < 256
    ensures |h| == 2 && AllHex(h)
  {
    [Digit(v / 16), Digit(v % 16)]
  }

  /** The digit pair at `i` of a text parses, when both are hexadecimal digits, as one byte. */
  lemma {:induction false} ParseDigitPair(h: string, i: nat)
    requires i + 2 <= |h| && IsHexDigit(h[i]) && IsHexDigit(h[i + 1])
    ensures ParseIntHex(h[i..i + 2]) == Some(16 * DigitValue(h[i]) + DigitValue(h[i + 1]))
  {
    var s := h[i..i + 2];
    assert s[0] == h[i] && s[1] == h[i + 1];
    ParseTwoDigits(s);
  }

  /** Reading two hexadecimal digits gives back the channel they encode. */
  lemma {:induction false} Hex2RoundTrip(v: nat)
    requires v < 256
    ensures ParseIntHex(Hex2(v)) == Some(v)
  {
    var h := Hex2(v);
    assert 16 * DigitValue(h[0]) + DigitValue(h[1]) == v by {
      assert DigitValue(h[0]) == v / 16 && DigitValue(h[1]) == v % 16;
    }
    ParseTwoDigits(h);
  }

  /** A string of at most two characters parses, if at all, to a value in
      [-15, 255]: a sign or white space leaves room for one digit only. */
  lemma {:induction false} ParseShortBounds(s: string)
    requires |s| <= 2
    ensures ParseIntHex(s).Some? ==> -15 <= ParseIntHex(s).value <= 255
  {
    var n := HexPrefixLength(DigitText(s));
    if n == 2 {
      ParseTwoDigitText(s);
    } else if n == 1 {
      ParseOneDigitText(s);
    }
  }

  /** Both characters are digits: no sign, so the value is one byte. */
  lemma {:induction false} ParseTwoDigitText(s: string)
    requires |s| <= 2
    requires HexPrefixLength(DigitText(s)) == 2
    ensures ParseIntHex(s).Some? && 0 <= ParseIntHex(s).value <= 255
  {
    var d := DigitText(s);
    assert |d| == 2 && |s| == 2;
    assert IsHexDigit(s[0]) && IsHexDigit(s[1]);
    ParseTwoDigits(s);
  }

  /** One digit, perhaps after a sign or a space: at most 15 either way. */
  lemma {:induction false} ParseOneDigitText(s: string)
    requires |s| <= 2
    requires HexPrefixLength(DigitText(s)) == 1
    ensures ParseIntHex(s).Some? && -15 <= ParseIntHex(s).value <= 15
  {
    var ds := DigitText(s)[..1];
    assert ds == [ds[0]];
    HexValueOne(ds[0]);
  }
}
