/**
  The four colour conversions of src/utils/index.ts, written step for step
  as the source computes them: each channel is divided by 255 into an exact
  rational, the source's branches pick the hue formula, and `Math.floor` /
  `Math.round` turn the results into the integers that are printed.

  The model assumes channel values in 0..255; no caller of these functions
  is part of the model, so every function here requires integers in that
  range.
 */
module ColorUtils {
  import opened Numeric
  import opened Decimal
  import Hex

  predicate IsByte(x: int) {
    0 <= x <= 255
  }

  predicate InRange(r: int, g: int, b: int) {
    IsByte(r) && IsByte(g) && IsByte(b)
  }

  // ---------------------------------------------------------------- rgbToHex

  /**
    `rgbToHex`: packs the triple under a leading 1 bit at position 24, prints
    the 25-bit number in hexadecimal and drops that leading "1", so the
    result is always six digits after the '#'.
   */
  function RgbToHex(r: int, g: int, b: int): (s: string)
    requires InRange(r, g, b)
    ensures |s| >= 1 && s[0] == '#'
  {
    "#" + Hex.ToHexString(0x100_0000 + r * 0x1_0000 + g * 0x100 + b)[1..]
  }

  // ---------------------------------------------------------------- rgbToHsl

  datatype Hsl = Hsl(h: int, s: int, l: int)

  /** The saturation step of `rgbToHsl`, for a colour whose extremes differ. */
  function HslSaturation(max: real, min: real): real
    requires 0.0 <= min < max <= 1.0
  {
    var d := max - min;
    var l := (max + min) / 2.0;
    if l > 0.5 then d / (2.0 - max - min) else d / (max + min)
  }

  /**
    The `switch (max)` of `rgbToHsl`: the hue in sixths of a turn, for a
    colour whose extremes differ by `d`. The switch tries r, then g; its last
    case is b.
   */
  function HslHueSixths(r': real, g': real, b': real, max: real, d: real): real
    requires d != 0.0
  {
    if max == r' then (g' - b') / d + (if g' < b' then 6.0 else 0.0)
    else if max == g' then (b' - r') / d + 2.0
    else (r' - g') / d + 4.0
  }

  /** The three integers `rgbToHsl` prints: hue in degrees, saturation and lightness in percent. */
  function HslChannels(r: int, g: int, b: int): Hsl
    requires InRange(r, g, b)
  {
    var r', g', b' := r as real / 255.0, g as real / 255.0, b as real / 255.0;
    var max := Max3(r', g', b');
    var min := Min3(r', g', b');
    var l := (max + min) / 2.0;
    var h := if max == min then 0.0 else HslHueSixths(r', g', b', max, max - min);  // achromatic: 0
    var h := if h != 0.0 then h / 6.0 else h;  // `if (h) { h /= 6 }`
    var s := if max == min then 0.0 else HslSaturation(max, min);
    // `h && Math.floor(h * 360)` keeps a zero hue as it is
    Hsl(if h != 0.0 then Floor(h * 360.0) else 0, Floor(s * 100.0), Floor(l * 100.0))
  }

  /** `rgbToHsl`: "hsl(h, s, l)", or the empty string when the printed hue would be 0. */
  function RgbToHsl(r: int, g: int, b: int): string
    requires InRange(r, g, b)
  {
    var c := HslChannels(r, g, b);
    if c.h != 0 then "hsl(" + IntToString(c.h) + ", " + IntToString(c.s) + ", " + IntToString(c.l) + ")"
    else ""
  }

  // ---------------------------------------------------------------- rgbToHsb

  datatype Hsb = Hsb(hue: int, saturation: int, brightness: int)

  /**
    The hue expression of `rgbToHsb` in sixths of a turn, for a colour whose
    extremes differ by `n` (`n && v === r` is just `v === r` once n is known
    to be non-zero); it is negative in the red sector below blue.
   */
  function HsbHueSixths(r': real, g': real, b': real, v: real, n: real): real
    requires n != 0.0
  {
    if v == r' then (g' - b') / n
    else if v == g' then 2.0 + (b' - r') / n
    else 4.0 + (r' - g') / n
  }

  /** The three integers `rgbToHsb` prints: hue in degrees, saturation and brightness in percent. */
  function HsbChannels(r: int, g: int, b: int): Hsb
    requires InRange(r, g, b)
  {
    var r', g', b' := r as real / 255.0, g as real / 255.0, b as real / 255.0;
    var v := Max3(r', g', b');
    var n := v - Min3(r', g', b');
    var h := if n == 0.0 then 0.0 else HsbHueSixths(r', g', b', v, n);
    Hsb(Round(60.0 * (if h < 0.0 then h + 6.0 else h)),
        Round(if v == 0.0 then v else n / v * 100.0),  // `v && (n / v) * 100`
        Round(v * 100.0))
  }

  /** `rgbToHsb`: "hsb(hue, saturation, brightness)". */
  function RgbToHsb(r: int, g: int, b: int): string
    requires InRange(r, g, b)
  {
    var c := HsbChannels(r, g, b);
    "hsb(" + IntToString(c.hue) + ", " + IntToString(c.saturation) + ", " + IntToString(c.brightness) + ")"
  }

  // ---------------------------------------------------------------- rgbToCmyk

  datatype Cmyk = Cmyk(c: int, m: int, y: int, k: int)

  predicate IsBlack(r: int, g: int, b: int) {
    r == 0 && g == 0 && b == 0
  }

  /** One of the `Math.round(((x - minCMY) / (1 - minCMY)) * 100)` lines of `rgbToCmyk`. */
  function CmykComponent(x: real, minCMY: real): int
    requires minCMY != 1.0
  {
    Round((x - minCMY) / (1.0 - minCMY) * 100.0)
  }

  /** The four integers `rgbToCmyk` prints for a colour other than black. */
  function CmykChannels(r: int, g: int, b: int): Cmyk
    requires InRange(r, g, b) && !IsBlack(r, g, b)
  {
    var c := 1.0 - r as real / 255.0;
    var m := 1.0 - g as real / 255.0;
    var y := 1.0 - b as real / 255.0;
    var minCMY := Min(c, Min(m, y));
    Cmyk(CmykComponent(c, minCMY), CmykComponent(m, minCMY), CmykComponent(y, minCMY), Round(minCMY))
  }

  /** `rgbToCmyk`: "cmyk(c, m, y, k)", with black answered by a fixed string. */
  function RgbToCmyk(r: int, g: int, b: int): string
    requires InRange(r, g, b)
  {
    if IsBlack(r, g, b) then "cmyk(0, 0, 0, 1)"
    else
      var ch := CmykChannels(r, g, b);
      "cmyk(" + IntToString(ch.c) + ", " + IntToString(ch.m) + ", " + IntToString(ch.y) + ", " + IntToString(ch.k) + ")"
  }
}
