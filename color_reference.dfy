/**
  An integer-only reference for each conversion of src/utils/index.ts, and
  the proof that the rational arithmetic of the source computes exactly
  these integers.
 */
module ColorReference {
  import opened Wrappers
  import opened Numeric
  import opened Decimal
  import Hex
  import opened ColorUtils

  // ---------------------------------------------------------------- common steps

  /** Scaling numerator and denominator by one positive constant leaves a quotient unchanged. */
  lemma ScaledQuotient(a: int, b: int, k: real)
    requires b != 0 && k > 0.0
    ensures (a as real / k) / (b as real / k) == a as real / b as real
  {
    var q := a as real / b as real;
    assert q * b as real == a as real;
    assert q * (b as real / k) == a as real / k;
    QuotientOfProduct(q, b as real / k, a as real / k);
  }

  /** `Math.floor` of a number shifted by a whole number shifts by that number. */
  lemma FloorShift(x: real, n: int)
    ensures Floor(x + n as real) == Floor(x) + n
  {
  }

  /** `Math.round` of a number shifted by a whole number shifts by that number. */
  lemma RoundShift(x: real, n: int)
    ensures Round(x + n as real) == Round(x) + n
  {
  }

  // ---------------------------------------------------------------- hsl

  /**
    The HSL channels in integer arithmetic: with M and m the largest and
    smallest channel and d = M - m, lightness is 100(M + m)/510, saturation
    100d over (510 - M - m) or (M + m), and hue 60 times the signed distance
    between the two other channels over d, plus 0, 120 or 240 degrees
    (360 for the red sector's wrap-around), all divisions rounding down.
   */
  function HslOfBytes(r: int, g: int, b: int): Hsl
    requires InRange(r, g, b)
  {
    var M, m := IMax3(r, g, b), IMin3(r, g, b);
    var d := M - m;
    var l := 100 * (M + m) / 510;
    if d == 0 then Hsl(0, 0, l)
    else
      var s := if M + m > 255 then 100 * d / (510 - M - m) else 100 * d / (M + m);
      var h :=
        if M == r then 60 * (g - b) / d + (if g < b then 360 else 0)
        else if M == g then 60 * (b - r) / d + 120
        else 60 * (r - g) / d + 240;
      Hsl(h, s, l)
  }

  /** Lightness: `Math.floor` of the mean of the extremes, in percent. */
  lemma HslLightnessExact(M: int, m: int)
    ensures Floor((M as real / 255.0 + m as real / 255.0) / 2.0 * 100.0) == 100 * (M + m) / 510
  {
    assert (M as real / 255.0 + m as real / 255.0) / 2.0 * 100.0 == (100 * (M + m)) as real / 510.0;
    FloorOfQuotient(100 * (M + m), 510);
  }

  /** Saturation of a colour that is not gray, in percent. */
  lemma HslSaturationExact(M: int, m: int)
    requires 0 <= m < M <= 255
    ensures Floor(HslSaturation(M as real / 255.0, m as real / 255.0) * 100.0)
         == if M + m > 255 then 100 * (M - m) / (510 - M - m) else 100 * (M - m) / (M + m)
  {
    var max, min := M as real / 255.0, m as real / 255.0;
    var dd := M - m;
    var den := if M + m > 255 then 510 - M - m else M + m;
    assert max - min == dd as real / 255.0;
    assert ((max + min) / 2.0 > 0.5) == (M + m > 255);
    assert HslSaturation(max, min) == (dd as real / 255.0) / (den as real / 255.0);
    ScaledQuotient(dd, den, 255.0);
    MultiplyQuotient(100, dd, den);
    FloorOfQuotient(100 * dd, den);
  }

  /**
    Hue of a colour that is not gray: `num` is the difference of the two
    channels that are not the maximum, `dd` the spread, `base` the sector
    offset 0, 2 or 4 and `adj` the wrap-around 6 or 0.
   */
  lemma HslHueExact(num: int, dd: int, base: int, adj: int)
    requires dd > 0
    ensures
      var h1 := (num as real / 255.0) / (dd as real / 255.0) + base as real + adj as real;
      var h2 := if h1 != 0.0 then h1 / 6.0 else h1;
      (if h2 != 0.0 then Floor(h2 * 360.0) else 0) == 60 * num / dd + 60 * (base + adj)
  {
    ScaledQuotient(num, dd, 255.0);
    var x := num as real / dd as real;
    var h1 := x + base as real + adj as real;
    assert x * 60.0 == (60 * num) as real / dd as real;
    FloorOfQuotient(60 * num, dd);
    FloorShift(x * 60.0, 60 * (base + adj));
    assert h1 * 60.0 == x * 60.0 + (60 * (base + adj)) as real;
  }

  /** The printed hue of a colour that is not gray, sector by sector. */
  lemma HslHueSixthsExact(r: int, g: int, b: int)
    requires InRange(r, g, b) && IMax3(r, g, b) != IMin3(r, g, b)
    ensures
      var r', g', b' := r as real / 255.0, g as real / 255.0, b as real / 255.0;
      var M, m := IMax3(r, g, b), IMin3(r, g, b);
      var h1 := HslHueSixths(r', g', b', M as real / 255.0, (M - m) as real / 255.0);
      var h2 := if h1 != 0.0 then h1 / 6.0 else h1;
      (if h2 != 0.0 then Floor(h2 * 360.0) else 0) == HslOfBytes(r, g, b).h
  {
    var r', g', b' := r as real / 255.0, g as real / 255.0, b as real / 255.0;
    var M, m := IMax3(r, g, b), IMin3(r, g, b);
    assert (g' < b') == (g < b);
    assert (r' - g') == (r - g) as real / 255.0;
    assert (g' - b') == (g - b) as real / 255.0;
    assert (b' - r') == (b - r) as real / 255.0;
    if M == r {
      HslHueExact(g - b, M - m, 0, if g < b then 6 else 0);
    } else if M == g {
      HslHueExact(b - r, M - m, 2, 0);
    } else {
      HslHueExact(r - g, M - m, 4, 0);
    }
  }

  /** The hue `rgbToHsl` prints, read off its extremes `max` and `min`. */
  lemma HslHueUnfold(r: int, g: int, b: int)
    requires InRange(r, g, b)
    ensures
      var r', g', b' := r as real / 255.0, g as real / 255.0, b as real / 255.0;
      var max, min := Max3(r', g', b'), Min3(r', g', b');
      var h1 := if max == min then 0.0 else HslHueSixths(r', g', b', max, max - min);
      var h2 := if h1 != 0.0 then h1 / 6.0 else h1;
      HslChannels(r, g, b).h == (if h2 != 0.0 then Floor(h2 * 360.0) else 0)
  {
  }

  /** The saturation `rgbToHsl` prints, read off its extremes `max` and `min`. */
  lemma HslSaturationUnfold(r: int, g: int, b: int)
    requires InRange(r, g, b)
    ensures
      var r', g', b' := r as real / 255.0, g as real / 255.0, b as real / 255.0;
      var max, min := Max3(r', g', b'), Min3(r', g', b');
      HslChannels(r, g, b).s == Floor((if max == min then 0.0 else HslSaturation(max, min)) * 100.0)
  {
  }

  /** The lightness `rgbToHsl` prints, read off its extremes `max` and `min`. */
  lemma HslLightnessUnfold(r: int, g: int, b: int)
    requires InRange(r, g, b)
    ensures
      var r', g', b' := r as real / 255.0, g as real / 255.0, b as real / 255.0;
      var max, min := Max3(r', g', b'), Min3(r', g', b');
      HslChannels(r, g, b).l == Floor((max + min) / 2.0 * 100.0)
  {
  }

  /** The printed lightness is the reference lightness. */
  lemma HslLightnessField(r: int, g: int, b: int)
    requires InRange(r, g, b)
    ensures HslChannels(r, g, b).l == HslOfBytes(r, g, b).l
  {
    HslLightnessUnfold(r, g, b);
    Max3Scaled(r, g, b, 255.0);
    Min3Scaled(r, g, b, 255.0);
    HslLightnessExact(IMax3(r, g, b), IMin3(r, g, b));
  }

  /** The printed saturation is the reference saturation. */
  lemma HslSaturationField(r: int, g: int, b: int)
    requires InRange(r, g, b)
    ensures HslChannels(r, g, b).s == HslOfBytes(r, g, b).s
  {
    var M, m := IMax3(r, g, b), IMin3(r, g, b);
    HslSaturationUnfold(r, g, b);
    Max3Scaled(r, g, b, 255.0);
    Min3Scaled(r, g, b, 255.0);
    if M != m {
      HslSaturationExact(M, m);
    }
  }

  /** The printed hue is the reference hue. */
  lemma HslHueField(r: int, g: int, b: int)
    requires InRange(r, g, b)
    ensures HslChannels(r, g, b).h == HslOfBytes(r, g, b).h
  {
    var M, m := IMax3(r, g, b), IMin3(r, g, b);
    HslHueUnfold(r, g, b);
    Max3Scaled(r, g, b, 255.0);
    Min3Scaled(r, g, b, 255.0);
    if M != m {
      assert M as real / 255.0 - m as real / 255.0 == (M - m) as real / 255.0;
      HslHueSixthsExact(r, g, b);
    }
  }

  /** The source's rational HSL computation yields exactly the integer reference. */
  lemma HslChannelsExact(r: int, g: int, b: int)
    requires InRange(r, g, b)
    ensures HslChannels(r, g, b) == HslOfBytes(r, g, b)
  {
    HslLightnessField(r, g, b);
    HslSaturationField(r, g, b);
    HslHueField(r, g, b);
  }

  // ---------------------------------------------------------------- hsb

  /**
    The HSB channels in integer arithmetic, every `Math.round` written as a
    division rounding down after adding half the divisor: brightness is
    100M/255 rounded, saturation 100(M - m)/M rounded (0 for black), and hue
    60 times the signed distance between the two other channels over
    M - m, rounded, plus 0, 120 or 240 degrees (360 for the red sector below
    blue).
   */
  function HsbOfBytes(r: int, g: int, b: int): Hsb
    requires InRange(r, g, b)
  {
    var M, m := IMax3(r, g, b), IMin3(r, g, b);
    var n := M - m;
    var hue :=
      if n == 0 then 0
      else if M == r then (120 * (g - b) + n) / (2 * n) + (if g < b then 360 else 0)
      else if M == g then (120 * (b - r) + n) / (2 * n) + 120
      else (120 * (r - g) + n) / (2 * n) + 240;
    var saturation := if M == 0 then 0 else (200 * n + M) / (2 * M);
    var brightness := (200 * M + 255) / 510;
    Hsb(hue, saturation, brightness)
  }

  /** Hue in the red sector: `(g - b) / n`, moved up a full turn when negative, then `Math.round(60 * h)`. */
  lemma HsbHueRedExact(num: int, n: int)
    requires n > 0 && -n <= num <= n
    ensures
      var h := (num as real / 255.0) / (n as real / 255.0);
      Round(60.0 * (if h < 0.0 then h + 6.0 else h)) == (120 * num + n) / (2 * n) + (if num < 0 then 360 else 0)
  {
    ScaledQuotient(num, n, 255.0);
    var x := num as real / n as real;
    QuotientSign(num, n);
    var shift := if num < 0 then 360 else 0;
    assert 60.0 * (if x < 0.0 then x + 6.0 else x) == 60.0 * x + shift as real;
    MultiplyQuotient(60, num, n);
    RoundOfQuotient(60 * num, n);
    RoundShift(60.0 * x, shift);
  }

  /** Hue in the green or blue sector: `base + d / n` with base 2 or 4, then `Math.round(60 * h)`. */
  lemma HsbHueOtherExact(num: int, n: int, base: int)
    requires n > 0 && -n <= num <= n && (base == 2 || base == 4)
    ensures
      var h := base as real + (num as real / 255.0) / (n as real / 255.0);
      h >= 0.0 && Round(60.0 * h) == (120 * num + n) / (2 * n) + 60 * base
  {
    ScaledQuotient(num, n, 255.0);
    var x := num as real / n as real;
    QuotientSign(num, n);
    assert 60.0 * (base as real + x) == 60.0 * x + (60 * base) as real;
    MultiplyQuotient(60, num, n);
    RoundOfQuotient(60 * num, n);
    RoundShift(60.0 * x, 60 * base);
  }

  /** The printed hue of a colour that is not gray, sector by sector. */
  lemma HsbHueSixthsExact(r: int, g: int, b: int)
    requires InRange(r, g, b) && IMax3(r, g, b) != IMin3(r, g, b)
    ensures
      var r', g', b' := r as real / 255.0, g as real / 255.0, b as real / 255.0;
      var M, m := IMax3(r, g, b), IMin3(r, g, b);
      var h := HsbHueSixths(r', g', b', M as real / 255.0, (M - m) as real / 255.0);
      Round(60.0 * (if h < 0.0 then h + 6.0 else h)) == HsbOfBytes(r, g, b).hue
  {
    var r', g', b' := r as real / 255.0, g as real / 255.0, b as real / 255.0;
    var M, m := IMax3(r, g, b), IMin3(r, g, b);
    var n := M - m;
    if M == r {
      assert (g' - b') == (g - b) as real / 255.0;
      HsbHueRedExact(g - b, n);
    } else if M == g {
      assert (b' - r') == (b - r) as real / 255.0;
      HsbHueOtherExact(b - r, n, 2);
    } else {
      assert (r' - g') == (r - g) as real / 255.0;
      HsbHueOtherExact(r - g, n, 4);
    }
  }

  /** Saturation: `Math.round(v && (n / v) * 100)`. */
  lemma HsbSaturationExact(M: int, m: int)
    requires 0 <= m <= M <= 255
    ensures
      var v, n := M as real / 255.0, M as real / 255.0 - m as real / 255.0;
      Round(if v == 0.0 then v else n / v * 100.0) == if M == 0 then 0 else (200 * (M - m) + M) / (2 * M)
  {
    if M != 0 {
      var v, n := M as real / 255.0, M as real / 255.0 - m as real / 255.0;
      assert n == (M - m) as real / 255.0;
      ScaledQuotient(M - m, M, 255.0);
      assert n / v * 100.0 == (100 * (M - m)) as real / M as real;
      RoundOfQuotient(100 * (M - m), M);
    }
  }

  /** Brightness: `Math.round(v * 100)`. */
  lemma HsbBrightnessExact(M: int)
    ensures Round(M as real / 255.0 * 100.0) == (200 * M + 255) / 510
  {
    assert M as real / 255.0 * 100.0 == (100 * M) as real / 255.0;
    RoundOfQuotient(100 * M, 255);
  }

  /** The printed brightness is the reference brightness. */
  lemma HsbBrightnessField(r: int, g: int, b: int)
    requires InRange(r, g, b)
    ensures HsbChannels(r, g, b).brightness == HsbOfBytes(r, g, b).brightness
  {
    var v := Max3(r as real / 255.0, g as real / 255.0, b as real / 255.0);
    Max3Scaled(r, g, b, 255.0);
    HsbBrightnessExact(IMax3(r, g, b));
    assert HsbChannels(r, g, b).brightness == Round(v * 100.0);
  }

  /** The saturation `rgbToHsb` prints, read off its extremes `v` and `v - n`. */
  lemma HsbSaturationUnfold(r: int, g: int, b: int)
    requires InRange(r, g, b)
    ensures
      var r', g', b' := r as real / 255.0, g as real / 255.0, b as real / 255.0;
      var v := Max3(r', g', b');
      var n := v - Min3(r', g', b');
      HsbChannels(r, g, b).saturation == Round(if v == 0.0 then v else n / v * 100.0)
  {
  }

  /** The printed saturation is the reference saturation. */
  lemma HsbSaturationField(r: int, g: int, b: int)
    requires InRange(r, g, b)
    ensures HsbChannels(r, g, b).saturation == HsbOfBytes(r, g, b).saturation
  {
    HsbSaturationUnfold(r, g, b);
    Max3Scaled(r, g, b, 255.0);
    Min3Scaled(r, g, b, 255.0);
    HsbSaturationExact(IMax3(r, g, b), IMin3(r, g, b));
  }

  /** The hue `rgbToHsb` prints, read off its extremes `v` and `v - n`. */
  lemma HsbHueUnfold(r: int, g: int, b: int)
    requires InRange(r, g, b)
    ensures
      var r', g', b' := r as real / 255.0, g as real / 255.0, b as real / 255.0;
      var v := Max3(r', g', b');
      var n := v - Min3(r', g', b');
      var h := if n == 0.0 then 0.0 else HsbHueSixths(r', g', b', v, n);
      HsbChannels(r, g, b).hue == Round(60.0 * (if h < 0.0 then h + 6.0 else h))
  {
  }

  /** The printed hue is the reference hue. */
  lemma HsbHueField(r: int, g: int, b: int)
    requires InRange(r, g, b)
    ensures HsbChannels(r, g, b).hue == HsbOfBytes(r, g, b).hue
  {
    var M, m := IMax3(r, g, b), IMin3(r, g, b);
    HsbHueUnfold(r, g, b);
    Max3Scaled(r, g, b, 255.0);
    Min3Scaled(r, g, b, 255.0);
    assert M as real / 255.0 - m as real / 255.0 == (M - m) as real / 255.0;
    if M != m {
      HsbHueSixthsExact(r, g, b);
    }
  }

  /** The source's rational HSB computation yields exactly the integer reference. */
  lemma HsbChannelsExact(r: int, g: int, b: int)
    requires InRange(r, g, b)
    ensures HsbChannels(r, g, b) == HsbOfBytes(r, g, b)
  {
    HsbBrightnessField(r, g, b);
    HsbSaturationField(r, g, b);
    HsbHueField(r, g, b);
  }

  // ---------------------------------------------------------------- cmyk

  /**
    The CMYK channels in integer arithmetic: black is (0, 0, 0, 1); any other
    colour with largest channel M has c = 100(M - r)/M rounded (likewise m
    and y), and k = 1 exactly when M is at most 127, else 0.
   */
  function CmykOfBytes(r: int, g: int, b: int): Cmyk
    requires InRange(r, g, b)
  {
    if IsBlack(r, g, b) then Cmyk(0, 0, 0, 1)
    else
      var M := IMax3(r, g, b);
      Cmyk((200 * (M - r) + M) / (2 * M),
           (200 * (M - g) + M) / (2 * M),
           (200 * (M - b) + M) / (2 * M),
           if M <= 127 then 1 else 0)
  }

  /** The divisor `1 - minCMY` is the largest channel over 255, so it is positive off black. */
  lemma CmykDivisorPositive(r: int, g: int, b: int)
    requires InRange(r, g, b) && !IsBlack(r, g, b)
    ensures
      var minCMY := Min(1.0 - r as real / 255.0, Min(1.0 - g as real / 255.0, 1.0 - b as real / 255.0));
      1.0 - minCMY == IMax3(r, g, b) as real / 255.0 && 1.0 - minCMY > 0.0
  {
    Max3Scaled(r, g, b, 255.0);
  }

  /** One rescaled component, for a channel x below the largest channel M. */
  lemma CmykComponentExact(x: int, M: int)
    requires 0 <= x <= M && M > 0
    ensures CmykComponent(1.0 - x as real / 255.0, 1.0 - M as real / 255.0) == (200 * (M - x) + M) / (2 * M)
  {
    assert (1.0 - x as real / 255.0) - (1.0 - M as real / 255.0) == (M - x) as real / 255.0;
    assert 1.0 - (1.0 - M as real / 255.0) == M as real / 255.0;
    ScaledQuotient(M - x, M, 255.0);
    assert (M - x) as real / M as real * 100.0 == (100 * (M - x)) as real / M as real;
    RoundOfQuotient(100 * (M - x), M);
  }

  /** The source's rational CMYK computation yields exactly the integer reference. */
  lemma CmykChannelsExact(r: int, g: int, b: int)
    requires InRange(r, g, b) && !IsBlack(r, g, b)
    ensures CmykChannels(r, g, b) == CmykOfBytes(r, g, b)
  {
    var M := IMax3(r, g, b);
    CmykDivisorPositive(r, g, b);
    var minCMY := 1.0 - M as real / 255.0;
    CmykComponentExact(r, M);
    CmykComponentExact(g, M);
    CmykComponentExact(b, M);
    assert minCMY == (255 - M) as real / 255.0;
    RoundOfQuotient(255 - M, 255);
    QuotientBounds(765 - 2 * M, 510, if M <= 127 then 1 else 0, if M <= 127 then 2 else 1);
  }
}
