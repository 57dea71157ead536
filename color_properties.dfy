/**
  What the strings of src/utils/index.ts promise: the hex text is six
  lower-case digits that read back as the packed triple; every other string
  reads back as the channels of the integer reference, each in its range;
  and the edge cases of the source hold as written (an HSL hue that floors to
  0 gives the empty string, black has fixed HSB and CMYK texts, an HSB hue of
  360 is reachable).
 */
module ColorProperties {
  import opened Wrappers
  import opened Numeric
  import opened Decimal
  import Hex
  import opened ColorUtils
  import opened ColorReference

  // ---------------------------------------------------------------- hex

  /** Reads "#rrggbb" back into the triple it packs; `None` on any other text. */
  function HexToRgb(s: string): Option<(int, int, int)> {
    if |s| == 7 && s[0] == '#' && Hex.AllHexDigits(s[1..]) then
      var v := Hex.HexValue(s[1..]);
      Some((v / 0x1_0000, v / 0x100 % 0x100, v % 0x100))
    else None
  }

  /** `rgbToHex` gives '#' and six lower-case hex digits whose value is r·65536 + g·256 + b. */
  lemma RgbToHexDigits(r: int, g: int, b: int)
    requires InRange(r, g, b)
    ensures
      var s := RgbToHex(r, g, b);
      && |s| == 7 && s[0] == '#' && Hex.AllHexDigits(s[1..])
      && Hex.HexValue(s[1..]) == r * 0x1_0000 + g * 0x100 + b
  {
    var v := r * 0x1_0000 + g * 0x100 + b;
    assert Hex.Pow16(6) == 0x100_0000;
    Hex.ToHexStringLeadingOne(0x100_0000 + v, 6);
    Hex.HexValuePadded(v, 6);
    assert RgbToHex(r, g, b)[1..] == Hex.Padded(v, 6);
  }

  /** Reading the hex text back recovers each channel. */
  lemma RgbToHexRoundTrip(r: int, g: int, b: int)
    requires InRange(r, g, b)
    ensures HexToRgb(RgbToHex(r, g, b)) == Some((r, g, b))
  {
    RgbToHexDigits(r, g, b);
    var v := r * 0x1_0000 + g * 0x100 + b;
    QuotientBounds(v, 0x1_0000, r, r + 1);
    QuotientBounds(v, 0x100, r * 0x100 + g, r * 0x100 + g + 1);
    assert (r * 0x100 + g) % 0x100 == g;
    assert v % 0x100 == b;
  }

  /** Distinct triples have distinct hex texts. */
  lemma RgbToHexInjective(r: int, g: int, b: int, r': int, g': int, b': int)
    requires InRange(r, g, b) && InRange(r', g', b')
    ensures RgbToHex(r, g, b) == RgbToHex(r', g', b') <==> (r, g, b) == (r', g', b')
  {
    RgbToHexRoundTrip(r, g, b);
    RgbToHexRoundTrip(r', g', b');
  }

  // ---------------------------------------------------------------- hsl

  /** The `hsl(...)` template literal is the three-channel call. */
  lemma HslTextIsCall(r: int, g: int, b: int)
    requires InRange(r, g, b)
    ensures
      var c := HslChannels(r, g, b);
      c.h != 0 ==> RgbToHsl(r, g, b) == Call("hsl", [c.h, c.s, c.l])
  {
    var c := HslChannels(r, g, b);
    assert "hsl" + "(" == "hsl(";
    CallOfThree("hsl", c.h, c.s, c.l);
  }

  /** The printed HSL channels: hue 0..359 degrees, saturation and lightness 0..100. */
  lemma HslBounds(r: int, g: int, b: int)
    requires InRange(r, g, b)
    ensures
      var c := HslChannels(r, g, b);
      0 <= c.h <= 359 && 0 <= c.s <= 100 && 0 <= c.l <= 100
  {
    HslChannelsExact(r, g, b);
    var M, m := IMax3(r, g, b), IMin3(r, g, b);
    var d := M - m;
    QuotientBounds(100 * (M + m), 510, 0, 101);
    if d != 0 {
      var den := if M + m > 255 then 510 - M - m else M + m;
      QuotientBounds(100 * d, den, 0, 101);
      if M == r {
        if g < b {
          QuotientBounds(60 * (g - b), d, -60, 0);
        } else {
          QuotientBounds(60 * (g - b), d, 0, 61);
        }
      } else if M == g {
        QuotientBounds(60 * (b - r), d, -60, 61);
      } else {
        QuotientBounds(60 * (r - g), d, -60, 61);
      }
    }
  }

  /**
    `rgbToHsl` is empty exactly when the floored hue is 0; otherwise it reads
    back as "hsl(h, s, l)" with the reference channels, h in 1..359.
   */
  lemma RgbToHslText(r: int, g: int, b: int)
    requires InRange(r, g, b)
    ensures
      var c := HslOfBytes(r, g, b);
      && (RgbToHsl(r, g, b) == "" <==> c.h == 0)
      && (c.h != 0 ==>
            && 1 <= c.h <= 359 && 0 <= c.s <= 100 && 0 <= c.l <= 100
            && ParseCall("hsl", RgbToHsl(r, g, b)) == Some([c.h, c.s, c.l]))
  {
    HslChannelsExact(r, g, b);
    HslBounds(r, g, b);
    HslTextIsCall(r, g, b);
    var c := HslOfBytes(r, g, b);
    if c.h != 0 {
      ParseCallRoundTrip("hsl", [c.h, c.s, c.l]);
    }
  }

  /** Every gray gives the empty string: its hue is 0. */
  lemma RgbToHslGrayIsEmpty(x: int)
    requires IsByte(x)
    ensures RgbToHsl(x, x, x) == ""
  {
    HslChannelsExact(x, x, x);
  }

  /** The reference channels of pure red and of two shades next to it. */
  lemma HslOfRedShades()
    ensures HslOfBytes(255, 0, 0) == Hsl(0, 100, 50)
    ensures HslOfBytes(255, 1, 0) == Hsl(0, 100, 50)
    ensures HslOfBytes(255, 5, 0) == Hsl(1, 100, 50)
  {
  }

  /**
    A hue of 0 is dropped whether or not the colour is gray: pure red and
    (255, 1, 0), whose hue of 60/255 degrees floors to 0, both give the empty
    string, while (255, 5, 0) prints.
   */
  lemma RgbToHslZeroHueIsEmpty()
    ensures RgbToHsl(255, 0, 0) == ""
    ensures RgbToHsl(255, 1, 0) == ""
    ensures RgbToHsl(255, 5, 0) == "hsl(1, 100, 50)"
  {
    HslChannelsExact(255, 0, 0);
    HslChannelsExact(255, 1, 0);
    HslChannelsExact(255, 5, 0);
    HslOfRedShades();
    assert IntToString(1) == "1" && IntToString(50) == "50" && IntToString(100) == "100";
  }

  // ---------------------------------------------------------------- hsb

  /** The `hsb(...)` template literal is the three-channel call. */
  lemma HsbTextIsCall(r: int, g: int, b: int)
    requires InRange(r, g, b)
    ensures
      var c := HsbChannels(r, g, b);
      RgbToHsb(r, g, b) == Call("hsb", [c.hue, c.saturation, c.brightness])
  {
    var c := HsbChannels(r, g, b);
    assert "hsb" + "(" == "hsb(";
    CallOfThree("hsb", c.hue, c.saturation, c.brightness);
  }

  /**
    The printed HSB channels: hue 0..360 degrees (360 included), saturation
    and brightness 0..100; a gray has hue 0 and saturation 0.
   */
  lemma HsbBounds(r: int, g: int, b: int)
    requires InRange(r, g, b)
    ensures
      var c := HsbChannels(r, g, b);
      && 0 <= c.hue <= 360 && 0 <= c.saturation <= 100 && 0 <= c.brightness <= 100
      && (IMax3(r, g, b) == IMin3(r, g, b) ==> c.hue == 0 && c.saturation == 0)
  {
    HsbChannelsExact(r, g, b);
    var M, m := IMax3(r, g, b), IMin3(r, g, b);
    var n := M - m;
    QuotientBounds(200 * M + 255, 510, 0, 101);
    if M != 0 {
      QuotientBounds(200 * n + M, 2 * M, 0, 101);
    }
    if n != 0 {
      if M == r {
        if g < b {
          QuotientBounds(120 * (g - b) + n, 2 * n, -60, 1);
        } else {
          QuotientBounds(120 * (g - b) + n, 2 * n, 0, 61);
        }
      } else if M == g {
        QuotientBounds(120 * (b - r) + n, 2 * n, -60, 61);
      } else {
        QuotientBounds(120 * (r - g) + n, 2 * n, -60, 61);
      }
    } else if M != 0 {
      QuotientBounds(200 * n + M, 2 * M, 0, 1);
    }
  }

  /** `rgbToHsb` reads back as "hsb(hue, saturation, brightness)" with the reference channels. */
  lemma RgbToHsbText(r: int, g: int, b: int)
    requires InRange(r, g, b)
    ensures
      var c := HsbOfBytes(r, g, b);
      ParseCall("hsb", RgbToHsb(r, g, b)) == Some([c.hue, c.saturation, c.brightness])
  {
    HsbChannelsExact(r, g, b);
    HsbBounds(r, g, b);
    HsbTextIsCall(r, g, b);
    var c := HsbOfBytes(r, g, b);
    ParseCallRoundTrip("hsb", [c.hue, c.saturation, c.brightness]);
  }

  /** Black has no division by zero: it prints as "hsb(0, 0, 0)". */
  lemma RgbToHsbBlack()
    ensures RgbToHsb(0, 0, 0) == "hsb(0, 0, 0)"
  {
    HsbChannelsExact(0, 0, 0);
  }

  /** The hue can round up to a full turn: (255, 0, 1) prints a hue of 360. */
  lemma RgbToHsbReaches360()
    ensures RgbToHsb(255, 0, 1) == "hsb(360, 100, 100)"
  {
    HsbChannelsExact(255, 0, 1);
    assert HsbOfBytes(255, 0, 1) == Hsb(360, 100, 100);
    assert IntToString(360) == "360" && IntToString(100) == "100";
  }

  // ---------------------------------------------------------------- cmyk

  /** The `cmyk(...)` template literal is the four-channel call. */
  lemma CmykTextIsCall(r: int, g: int, b: int)
    requires InRange(r, g, b) && !IsBlack(r, g, b)
    ensures
      var c := CmykChannels(r, g, b);
      RgbToCmyk(r, g, b) == Call("cmyk", [c.c, c.m, c.y, c.k])
  {
    var c := CmykChannels(r, g, b);
    assert "cmyk" + "(" == "cmyk(";
    CallOfFour("cmyk", c.c, c.m, c.y, c.k);
  }

  /** The fixed text for black is the four-channel call of (0, 0, 0, 1). */
  lemma CmykBlackTextIsCall()
    ensures RgbToCmyk(0, 0, 0) == Call("cmyk", [0, 0, 0, 1])
  {
    assert "cmyk" + "(" == "cmyk(";
    CallOfFour("cmyk", 0, 0, 0, 1);
    assert IntToString(0) == "0" && IntToString(1) == "1";
  }

  /**
    Off black, c, m and y are percentages of which at least one is 0, and k is
    0 or 1: 1 exactly when the largest channel is at most 127.
   */
  lemma CmykBounds(r: int, g: int, b: int)
    requires InRange(r, g, b) && !IsBlack(r, g, b)
    ensures
      var c := CmykChannels(r, g, b);
      && 0 <= c.c <= 100 && 0 <= c.m <= 100 && 0 <= c.y <= 100
      && (c.c == 0 || c.m == 0 || c.y == 0)
      && (c.k == 1 <==> IMax3(r, g, b) <= 127)
      && (c.k == 0 <==> IMax3(r, g, b) >= 128)
  {
    CmykChannelsExact(r, g, b);
    var M := IMax3(r, g, b);
    QuotientBounds(200 * (M - r) + M, 2 * M, 0, 101);
    QuotientBounds(200 * (M - g) + M, 2 * M, 0, 101);
    QuotientBounds(200 * (M - b) + M, 2 * M, 0, 101);
    QuotientBounds(M, 2 * M, 0, 1);
  }

  /** `rgbToCmyk` reads back as "cmyk(c, m, y, k)" with the reference channels, black included. */
  lemma RgbToCmykText(r: int, g: int, b: int)
    requires InRange(r, g, b)
    ensures
      var c := CmykOfBytes(r, g, b);
      ParseCall("cmyk", RgbToCmyk(r, g, b)) == Some([c.c, c.m, c.y, c.k])
  {
    var c := CmykOfBytes(r, g, b);
    if IsBlack(r, g, b) {
      CmykBlackTextIsCall();
    } else {
      CmykChannelsExact(r, g, b);
      CmykBounds(r, g, b);
      CmykTextIsCall(r, g, b);
    }
    ParseCallRoundTrip("cmyk", [c.c, c.m, c.y, c.k]);
  }

  /** Black is answered without any division: exactly "cmyk(0, 0, 0, 1)". */
  lemma RgbToCmykBlack()
    ensures RgbToCmyk(0, 0, 0) == "cmyk(0, 0, 0, 1)"
  {
  }
}
