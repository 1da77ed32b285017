/** The two colour converters of the question card: `getLevelColor`, which
    turns a difficulty level's `"r,g,b"` text into a CSS `rgb(...)` colour,
    and `getTextColor`, which picks dark or light text for a `#rrggbb`
    background by its weighted brightness. */
module ButtonConverters {
  import opened Wrappers
  import opened JsStrings
  import opened JsParseInt
  import opened HexChannels

  /** The fallback colour for a level that is not a string. */
  const Black: string := "rgb(0, 0, 0)"

  /** Dark text, for bright backgrounds. */
  const Dark: string := "#333"

  /** Light text, for dim backgrounds. */
  const Light: string := "#FFF"

  /** How a template literal renders a value that may be `undefined`. */
  function Interpolate(v: Option<string>): string {
    match v
    case Some(s) => s
    case None => "undefined"
  }

  /** Array destructuring: element `i`, or `undefined` past the end. */
  function FieldAt(fields: seq<string>, i: nat): Option<string> {
    if i < |fields| then Some(fields[i]) else None
  }

  /** The CSS colour `rgb(r, g, b)` with its three components as given. */
  function Rgb(r: string, g: string, b: string): string {
    "rgb(" + r + ", " + g + ", " + b + ")"
  }

  /** `getLevelColor(level)`; `None` stands for any value that is not a
      string. The first three comma-separated fields become the colour's
      components, verbatim; a missing one renders as `undefined`. */
  function GetLevelColor(level: Option<string>): (color: string)
    ensures level.None? ==> color == Black
    ensures level.Some? ==> exists r, g, b :: color == Rgb(r, g, b)
  {
    match level
    case None => Black
    case Some(s) =>
      var fields := Split(s);
      Rgb(Interpolate(FieldAt(fields, 0)), Interpolate(FieldAt(fields, 1)), Interpolate(FieldAt(fields, 2)))
  }

  /** With at least three fields, the colour is made of the first three,
      copied as they are: neither trimmed nor checked to be numbers. */
  lemma LevelColorOfFields(fields: seq<string>)
    requires |fields| >= 3 && CommaFree(fields)
    ensures GetLevelColor(Some(Join(fields))) == Rgb(fields[0], fields[1], fields[2])
  {
    SplitJoin(fields);
  }

  /** Fields after the third do not matter: appending one changes nothing. */
  lemma LevelColorIgnoresExtraFields(s: string, x: string)
    requires multiset(s)[Comma] >= 2
    ensures GetLevelColor(Some(s + "," + x)) == GetLevelColor(Some(s))
  {
    SplitFieldCount(s);
    SplitAppend(s, x);
    assert s + "," + x == s + [Comma] + x;
    var fs := Split(s);
    assert Split(s + "," + x)[..3] == fs[..3];
  }

  /** A level without commas fills the red component only. */
  lemma LevelColorOneField(f: string)
    requires Comma !in f
    ensures GetLevelColor(Some(f)) == Rgb(f, "undefined", "undefined")
  {
    SplitCommaFree(f);
  }

  /** A level with one comma leaves the blue component undefined. */
  lemma LevelColorTwoFields(f0: string, f1: string)
    requires Comma !in f0 && Comma !in f1
    ensures GetLevelColor(Some(f0 + "," + f1)) == Rgb(f0, f1, "undefined")
  {
    SplitCommaFree(f0);
    SplitCommaFree(f1);
    SplitAppend(f0, f1);
    assert f0 + "," + f1 == f0 + [Comma] + f1;
  }

  /** A single number fills the red component only. */
  lemma LevelColorOfOneNumber()
    ensures GetLevelColor(Some("5")) == "rgb(5, undefined, undefined)"
  {
    var f := "5";
    assert Comma !in f;
    LevelColorOneField(f);
  }

  /** Exactly three fields make a full colour, whatever they hold. */
  lemma LevelColorThreeFields(f0: string, f1: string, f2: string)
    requires Comma !in f0 && Comma !in f1 && Comma !in f2
    ensures GetLevelColor(Some(f0 + "," + f1 + "," + f2)) == Rgb(f0, f1, f2)
  {
    var fs := [f0, f1, f2];
    assert Join(fs) == f0 + "," + f1 + "," + f2 by {
      assert fs[1..][1..] == [f2];
      assert Join(fs[1..]) == f1 + [Comma] + f2;
    }
    LevelColorOfFields(fs);
  }

  /** Channel `k` (0 red, 1 green, 2 blue) of a background colour: the two
      characters at `2k` of the text left once the first `#` is removed,
      read by `parseInt(_, 16)`; `None` is `NaN`. */
  function Channel(bgColor: string, k: nat): Option<int>
    requires k < 3
  {
    ParseIntHex(ChannelText(bgColor, k))
  }

  /** The at most two characters channel `k` is read from. */
  function ChannelText(bgColor: string, k: nat): (t: string)
    requires k < 3
    ensures |t| <= 2
  {
    Substring(RemoveFirst(bgColor, '#'), 2 * k, 2 * k + 2)
  }

  /** The brightness test `(299 r + 587 g + 114 b) / 1000 > 128` in whole
      numbers; any `NaN` channel makes it false. */
  predicate IsBright(r: Option<int>, g: Option<int>, b: Option<int>) {
    r.Some? && g.Some? && b.Some? && 299 * r.value + 587 * g.value + 114 * b.value > 128000
  }

  /** `getTextColor(bgColor)`: dark text exactly when the background's
      brightness, computed with exact division, exceeds 128. */
  function GetTextColor(bgColor: string): (text: string)
    ensures text == Dark || text == Light
    ensures text == Dark <==>
      && Channel(bgColor, 0).Some? && Channel(bgColor, 1).Some? && Channel(bgColor, 2).Some?
      && (299 * Channel(bgColor, 0).value + 587 * Channel(bgColor, 1).value
          + 114 * Channel(bgColor, 2).value) as real / 1000.0 > 128.0
  {
    var hex := RemoveFirst(bgColor, '#');
    var r := ParseIntHex(Substring(hex, 0, 2));
    var g := ParseIntHex(Substring(hex, 2, 4));
    var b := ParseIntHex(Substring(hex, 4, 6));
    if IsBright(r, g, b) then Dark else Light
  }

  /** `#` followed by the three channels in two-digit hexadecimal. */
  function ColorHex(r: nat, g: nat, b: nat): (c: string)
    requires r < 256 && g < 256 && b < 256
    ensures |c| == 7
  {
    "#" + Hex2(r) + Hex2(g) + Hex2(b)
  }

  /** Six hexadecimal digits after `#` are read as three bytes. */
  lemma TextColorOfDigits(h: string)
    requires |h| == 6 && AllHex(h)
    ensures GetTextColor("#" + h) == Dark <==>
      299 * (16 * DigitValue(h[0]) + DigitValue(h[1]))
      + 587 * (16 * DigitValue(h[2]) + DigitValue(h[3]))
      + 114 * (16 * DigitValue(h[4]) + DigitValue(h[5])) > 128000
  {
    var bg := "#" + h;
    ChannelOfDigits(h, 0);
    ChannelOfDigits(h, 1);
    ChannelOfDigits(h, 2);
    ChannelsDecide(bg);
  }

  /** After a leading `#`, channel `k` is read from the digit pair at `2k`. */
  lemma ChannelOfDigits(h: string, k: nat)
    requires k < 3 && |h| >= 6 && IsHexDigit(h[2 * k]) && IsHexDigit(h[2 * k + 1])
    ensures Channel("#" + h, k) == Some(16 * DigitValue(h[2 * k]) + DigitValue(h[2 * k + 1]))
  {
    ChannelTextOfDigits(h, k);
    ParseDigitPair(h, 2 * k);
  }

  /** After a leading `#`, channel `k`'s text is the pair at `2k`. */
  lemma ChannelTextOfDigits(h: string, k: nat)
    requires k < 3 && |h| >= 6
    ensures ChannelText("#" + h, k) == h[2 * k..2 * k + 2]
  {
    assert "#" + h == [] + ['#'] + h;
    RemoveFirstCutsFirst([], h, '#');
  }

  /** `getTextColor` decides on the three channels alone. */
  lemma ChannelsDecide(bg: string)
    ensures GetTextColor(bg) == Dark <==> IsBright(Channel(bg, 0), Channel(bg, 1), Channel(bg, 2))
  {
  }

  /** For an encoded colour the decision is the weighted-sum threshold on
      the very channel values that were encoded. */
  lemma TextColorOfColorHex(r: nat, g: nat, b: nat)
    requires r < 256 && g < 256 && b < 256
    ensures GetTextColor(ColorHex(r, g, b)) == Dark <==> 299 * r + 587 * g + 114 * b > 128000
  {
    var h := Hex2(r) + Hex2(g) + Hex2(b);
    assert ColorHex(r, g, b) == "#" + h;
    assert h[0..2] == Hex2(r) && h[2..4] == Hex2(g) && h[4..6] == Hex2(b);
    TextColorOfDigits(h);
    ParseTwoDigits(h[0..2]);
    ParseTwoDigits(h[2..4]);
    ParseTwoDigits(h[4..6]);
    Hex2RoundTrip(r);
    Hex2RoundTrip(g);
    Hex2RoundTrip(b);
  }

  /** Brightening any channel never turns dark text light. */
  lemma TextColorMonotone(r: nat, g: nat, b: nat, r': nat, g': nat, b': nat)
    requires r <= r' < 256 && g <= g' < 256 && b <= b' < 256
    ensures GetTextColor(ColorHex(r, g, b)) == Dark ==> GetTextColor(ColorHex(r', g', b')) == Dark
  {
    TextColorOfColorHex(r, g, b);
    TextColorOfColorHex(r', g', b');
  }

  /** Black takes light text. */
  lemma TextColorOfBlack()
    ensures GetTextColor("#000000") == Light
  {
    var h := "000000";
    assert IsHexDigit('0');
    assert "#" + h == "#000000";
    TextColorOfDigits(h);
  }

  /** White takes dark text. */
  lemma TextColorOfWhite()
    ensures GetTextColor("#FFFFFF") == Dark
  {
    var h := "FFFFFF";
    assert IsHexDigit('F');
    assert "#" + h == "#FFFFFF";
    TextColorOfDigits(h);
  }

  /** With four characters or fewer left after the `#`, the blue channel is
      the empty string, `NaN`, and the text is light whatever came before. */
  lemma ShortColorIsLight(bgColor: string)
    requires |RemoveFirst(bgColor, '#')| <= 4
    ensures GetTextColor(bgColor) == Light
  {
    var hex := RemoveFirst(bgColor, '#');
    assert Substring(hex, 4, 6) == "";
  }

  /** A fifth digit is not `NaN`: `#fffff` reads its blue channel as `f`,
      15, and is bright enough for dark text. */
  lemma FiveDigitColor()
    ensures GetTextColor("#fffff") == Dark
  {
    var hex := RemoveFirst("#fffff", '#');
    assert hex == "fffff";
    assert Substring(hex, 0, 2) == "ff" && Substring(hex, 2, 4) == "ff";
    assert Substring(hex, 4, 6) == "f";
    ParseTwoDigits("ff");
    assert DigitValue('f') == 15;
    var one := ParseIntHex("f");
    assert TrimStart("f") == "f" && DigitText("f") == "f";
    assert HexPrefixLength("f") == 1;
    HexValueOne('f');
    assert "f"[..1] == ['f'];
  }

  /** Characters after the sixth are never read. */
  lemma TextColorIgnoresTail(h: string)
    requires |h| >= 6
    ensures GetTextColor("#" + h) == GetTextColor("#" + h[..6])
  {
    assert RemoveFirst("#" + h, '#') == h by {
      assert ("#" + h)[1..] == h;
    }
    assert RemoveFirst("#" + h[..6], '#') == h[..6] by {
      assert ("#" + h[..6])[1..] == h[..6];
    }
    assert Substring(h, 0, 2) == Substring(h[..6], 0, 2);
    assert Substring(h, 2, 4) == Substring(h[..6], 2, 4);
    assert Substring(h, 4, 6) == Substring(h[..6], 4, 6);
  }

  /** The `#` removed is the first one wherever it stands, not only a
      leading one: text before it counts as colour digits. */
  lemma TextColorRemovesFirstHashAnywhere(a: string, b: string)
    requires '#' !in a
    ensures GetTextColor(a + "#" + b) == GetTextColor("#" + a + b)
  {
    RemoveFirstCutsFirst(a, b, '#');
    assert a + "#" + b == a + ['#'] + b;
    RemoveFirstCutsFirst([], a + b, '#');
    assert "#" + a + b == [] + ['#'] + (a + b);
  }
}
