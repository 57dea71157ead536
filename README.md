# color-picker, modelled in Dafny

color-picker is a web page on which the user drops or picks an image,
moves the pointer over it to sample a pixel, and clicks to copy that colour
to the clipboard and add it to a palette. This project models the core of
that program:

- the four colour conversions of `src/utils/index.ts` (`rgbToHex`,
  `rgbToHsl`, `rgbToHsb`, `rgbToCmyk`), written step for step on exact
  rationals as the source computes them (module `ColorUtils`), together
  with integer-only reference formulas that the source's results are proved
  equal to, channel by channel (module `ColorReference`), and the
  properties of the printed text: its channel ranges, its round trip back
  to the channels, and the edge cases of black, gray and a hue that rounds
  up to a full turn (module `ColorProperties`);
- the palette of `src/App.tsx`: the "rgb(r, g, b)" text built for a sampled
  pixel, the palette update made by a click, and the session state that the
  click, copy and pointer-leave handlers change (module `Palette`, with the
  state in the class `Palette.Session`);
- the settings popover of `src/components/settings.tsx`: the guards of the
  two radio groups, which accept exactly their listed ids and otherwise
  leave the setting alone, and the example text shown beside each output
  format (module `Settings`).

Supporting modules: `Numeric` (JavaScript's `Math.floor`, `Math.round`,
`Math.max` and `Math.min` on exact reals, and the bridge from real
quotients to integer division), `Decimal` (a number's decimal text, and a
parser for "name(a, b, c)" that reads it back), `Hex` (a number's
hexadecimal text and its value), `Wrappers` (`Option`).

The model assumes that every conversion is given channel values in
0..255. No caller of the four conversions is part of this model, so this
range is an assumption of the model, not a fact read off a caller.

Behaviour of the code that a reader might not expect, and that the model
keeps as written:

- A gray, pure red (255, 0, 0), or any red whose hue floors to 0 gets no
  HSL text at all: `rgbToHsl` returns the empty string whenever the floored
  hue is 0, so a caller cannot tell such a colour from a failure.
- `rgbToCmyk` prints k as `Math.round(minCMY)`, which is 0 or 1, not a
  percentage, and answers black with the fixed text "cmyk(0, 0, 0, 1)".
- src/App.tsx defines no remove or clear handler for the palette. The
  swatch list (src/components/color-swatches.tsx:12, 84) wires a "Remove
  color" button to a `handleRemoveColor` property, but the body of that
  handler is not part of this model.
- The settings code has no check that rejects a legacy-syntax format for a
  colour space that only has a modern syntax.

## Model

| member | source | states |
|---|---|---|
| ColorUtils.RgbToHex | src/utils/index.ts:1-2 | The hex text of a byte triple starts with '#'. |
| ColorProperties.RgbToHexDigits | src/utils/index.ts:1-2 | The hex text is '#' followed by exactly six lower-case hex digits, whose value is r·65536 + g·256 + b. |
| ColorProperties.RgbToHexRoundTrip | src/utils/index.ts:1-2 | Reading the hex text back gives the triple it was made from. |
| ColorProperties.RgbToHexInjective | src/utils/index.ts:1-2 | Two triples have the same hex text exactly when they are equal. |
| Hex.ToHexStringLeadingOne | src/utils/index.ts:2 | A number in [16^k, 2·16^k) prints in hex as "1" followed by its remainder below 16^k padded to k digits, so dropping the first character keeps exactly k digits. |
| Hex.HexValuePadded | src/utils/index.ts:2 | The k-digit padded hex text of a number below 16^k has that number as its value. |
| ColorReference.HslLightnessExact | src/utils/index.ts:9-13 | The floored lightness percentage, computed on the rationals c/255, equals 100(M + m)/510 rounded down. |
| ColorReference.HslSaturationExact | src/utils/index.ts:18-19 | The floored saturation percentage of a non-gray colour equals 100d over (510 - M - m) or (M + m), rounded down, with the branch chosen on l > 0.5. |
| ColorReference.HslHueSixthsExact | src/utils/index.ts:20-36 | For a non-gray colour, the floored hue in degrees is 60 times the signed channel difference over d, rounded down, plus 0 or 360, 120 or 240 according to the channel that is largest. |
| ColorReference.HslLightnessField | src/utils/index.ts:9-13 | The lightness `rgbToHsl` prints equals the reference lightness. |
| ColorReference.HslSaturationField | src/utils/index.ts:15-19 | The saturation `rgbToHsl` prints equals the reference saturation, 0 for a gray. |
| ColorReference.HslHueField | src/utils/index.ts:15-36 | The hue `rgbToHsl` prints equals the reference hue, 0 for a gray. |
| ColorReference.HslChannelsExact | src/utils/index.ts:4-38 | The source's rational HSL computation gives exactly the integer reference triple, for every byte triple. |
| ColorUtils.HslChannels | src/utils/index.ts:4-38 | The three integers `rgbToHsl` prints, computed step for step on rationals; its contract is carried by ColorReference.HslChannelsExact (equal to the integer reference) and ColorProperties.HslBounds (ranges). |
| ColorUtils.RgbToHsl | src/utils/index.ts:4-41 | The HSL text, or "" when the floored hue is 0; see ColorProperties.RgbToHslText (empty exactly when the hue is 0, otherwise reads back as the reference triple) and ColorProperties.RgbToHslZeroHueIsEmpty. |
| ColorProperties.HslTextIsCall | src/utils/index.ts:40 | A non-empty HSL text is the call form "hsl(h, s, l)" of the three printed channels. |
| ColorProperties.HslBounds | src/utils/index.ts:13-38 | The printed hue lies in 0..359 and saturation and lightness in 0..100. |
| ColorProperties.RgbToHslText | src/utils/index.ts:31-40 | The HSL text is empty exactly when the reference hue is 0; otherwise the hue lies in 1..359 and the text reads back as the reference triple. |
| ColorProperties.RgbToHslGrayIsEmpty | src/utils/index.ts:15-16 | Every gray gives the empty string. |
| ColorProperties.HslOfRedShades | src/utils/index.ts:20-38 | The reference channels of (255, 0, 0) and (255, 1, 0) are (0, 100, 50), and of (255, 5, 0) they are (1, 100, 50). |
| ColorProperties.RgbToHslZeroHueIsEmpty | src/utils/index.ts:31-40 | Pure red and (255, 1, 0) give the empty string, while (255, 5, 0) gives "hsl(1, 100, 50)". |
| ColorReference.HsbHueRedExact | src/utils/index.ts:49-50 | In the red sector, `Math.round(60·h)` with h moved up a full turn when negative equals (120·num + n)/(2n) rounded down, plus 360 when num is negative. |
| ColorReference.HsbHueOtherExact | src/utils/index.ts:49-50 | In the green or blue sector, `Math.round(60·(base + num/n))` equals (120·num + n)/(2n) rounded down plus 60·base. |
| ColorReference.HsbHueSixthsExact | src/utils/index.ts:47-50 | For a non-gray colour, the printed hue is the reference hue, sector by sector. |
| ColorReference.HsbSaturationExact | src/utils/index.ts:51 | The rounded saturation is (200(M - m) + M)/(2M) rounded down, and 0 for black, where `v &&` short-cuts the division. |
| ColorReference.HsbBrightnessExact | src/utils/index.ts:52 | The rounded brightness is (200M + 255)/510 rounded down. |
| ColorReference.HsbBrightnessField | src/utils/index.ts:47-52 | The brightness `rgbToHsb` prints equals the reference brightness. |
| ColorReference.HsbSaturationField | src/utils/index.ts:47-51 | The saturation `rgbToHsb` prints equals the reference saturation. |
| ColorReference.HsbHueField | src/utils/index.ts:47-50 | The hue `rgbToHsb` prints equals the reference hue, 0 for a gray. |
| ColorReference.HsbChannelsExact | src/utils/index.ts:43-52 | The source's rational HSB computation gives exactly the integer reference triple, for every byte triple. |
| ColorUtils.HsbChannels | src/utils/index.ts:43-52 | The three integers `rgbToHsb` prints, computed step for step on rationals; see ColorReference.HsbChannelsExact (equal to the integer reference) and ColorProperties.HsbBounds (ranges). |
| ColorUtils.RgbToHsb | src/utils/index.ts:43-54 | The HSB text; see ColorProperties.RgbToHsbText (reads back as the reference triple), ColorProperties.RgbToHsbBlack and ColorProperties.RgbToHsbReaches360. |
| ColorProperties.HsbTextIsCall | src/utils/index.ts:53 | The HSB text is the call form "hsb(hue, saturation, brightness)" of the printed channels. |
| ColorProperties.HsbBounds | src/utils/index.ts:47-52 | The printed hue lies in 0..360 (360 included) and saturation and brightness in 0..100; a gray has hue 0 and saturation 0. |
| ColorProperties.RgbToHsbText | src/utils/index.ts:43-54 | The HSB text reads back as the reference triple. |
| ColorProperties.RgbToHsbBlack | src/utils/index.ts:48-51 | Black prints as "hsb(0, 0, 0)": no division by zero is reached. |
| ColorProperties.RgbToHsbReaches360 | src/utils/index.ts:49-50 | The hue can round up to a full turn: (255, 0, 1) prints "hsb(360, 100, 100)". |
| ColorReference.CmykDivisorPositive | src/utils/index.ts:72-77 | Off black, the divisor 1 - minCMY equals the largest channel over 255 and is positive. |
| ColorReference.CmykComponentExact | src/utils/index.ts:77-79 | One rescaled component equals 100(M - x)/M rounded, in integer arithmetic. |
| ColorReference.CmykChannelsExact | src/utils/index.ts:72-80 | Off black, the source's rational CMYK computation gives exactly the integer reference quadruple. |
| ColorUtils.CmykChannels | src/utils/index.ts:72-80 | The four integers `rgbToCmyk` prints off black, computed step for step on rationals; see ColorReference.CmykChannelsExact (equal to the integer reference) and ColorProperties.CmykBounds (ranges, k). |
| ColorUtils.RgbToCmyk | src/utils/index.ts:56-83 | The CMYK text, with the fixed text for black; see ColorProperties.RgbToCmykText (reads back as the reference quadruple) and ColorProperties.RgbToCmykBlack. |
| ColorProperties.CmykTextIsCall | src/utils/index.ts:82 | Off black, the CMYK text is the call form "cmyk(c, m, y, k)" of the printed channels. |
| ColorProperties.CmykBlackTextIsCall | src/utils/index.ts:67-70 | The fixed text for black is the call form of (0, 0, 0, 1). |
| ColorProperties.CmykBounds | src/utils/index.ts:72-80 | Off black, c, m and y lie in 0..100 and at least one of them is 0; k is 1 exactly when the largest channel is at most 127 and 0 exactly when it is at least 128. |
| ColorProperties.RgbToCmykText | src/utils/index.ts:56-83 | The CMYK text reads back as the reference quadruple, black included. |
| ColorProperties.RgbToCmykBlack | src/utils/index.ts:67-70 | Black prints as exactly "cmyk(0, 0, 0, 1)". |
| Decimal.NatToStringRoundTrip | src/utils/index.ts:40 | The decimal text of a non-negative integer reads back as that integer. |
| Decimal.ParseCallRoundTrip | src/utils/index.ts:53 | The call text "name(a, b, …)" of a non-empty list of non-negative integers reads back as exactly that list. |
| Decimal.CallInjective | src/utils/index.ts:82 | Two non-empty lists of non-negative integers give the same call text exactly when they are equal. |
| Palette.PixelString | src/App.tsx:76-79 | The text built for a sampled pixel; see Palette.PixelStringIsCall, Palette.PixelStringReadsBack and Palette.PixelStringInjective. |
| Palette.AfterSelect | src/App.tsx:90-99 | The palette a click hands to `setSelectedColors`; see Palette.SelectDuplicateUnchanged, Palette.SelectNewAppends, Palette.SelectNewSelectsOnlyLast and Palette.SelectKeepsInvariant. |
| Palette.PixelStringIsCall | src/App.tsx:76-79 | The sampled pixel's text is the call form "rgb(r, g, b)" of its three bytes. |
| Palette.PixelStringReadsBack | src/App.tsx:76-79 | The sampled pixel's text reads back as the three bytes it was built from. |
| Palette.PixelStringInjective | src/App.tsx:76-79 | Two pixels give the same text exactly when their bytes are equal, so comparing texts compares colours. |
| Palette.SelectDuplicateUnchanged | src/App.tsx:90-95 | Clicking a colour already in the palette leaves the palette unchanged, selection flags included. |
| Palette.SelectNewAppends | src/App.tsx:96-99 | Clicking a new colour appends it, selected, at the end; every earlier entry keeps its colour and place and is deselected. |
| Palette.SelectNewSelectsOnlyLast | src/App.tsx:96-99 | After a new colour is clicked, exactly the last entry is selected. |
| Palette.SelectedColorIsPresent | src/App.tsx:88-102 | Whatever colour was clicked is in the palette afterwards. |
| Palette.SelectKeepsInvariant | src/App.tsx:88-102 | A click keeps the palette free of duplicate colours and with at most one selected entry. |
| Palette.SelectIdempotent | src/App.tsx:88-102 | Clicking the same colour twice leaves the palette as clicking it once. |
| Palette.Session.constructor | src/App.tsx:16-20 | The session starts with no colour under the pointer, an empty palette, no message, no error and nothing copied. |
| Palette.Session.SampleColor | src/App.tsx:66-80 | Moving over a pixel sets the current colour to that pixel's "rgb(r, g, b)" text and changes nothing else. |
| Palette.Session.ClearColor | src/App.tsx:104-105 | Leaving the image clears the current colour and changes nothing else. |
| Palette.Session.CopyColor | src/App.tsx:53-57 | Copying sets the message "<colour> copied to clipboard!" and appends the colour to the clipboard log; nothing else changes. |
| Palette.Session.SelectColor | src/App.tsx:88-102 | A click copies the current colour, sets the error flag exactly when the colour was already in the palette, shows the duplicate or the copied message accordingly, updates the palette as the pure update does, and keeps the palette's invariant. |
| Settings.ParseFormat | src/components/settings.tsx:53-61 | The format group's guard; see Settings.ParseFormatInverse (accepts exactly the eight ids, each naming its own format). |
| Settings.SetFormat | src/components/settings.tsx:53-63 | The format after the group reports a value; see Settings.SetFormatGuard. |
| Settings.ParseFormatInverse | src/components/settings.tsx:53-61 | The format guard accepts a value exactly when it is one of the eight format ids, and each id names its own format. |
| Settings.FormatIdInjective | src/components/settings.tsx:53-61 | The eight format ids are pairwise different. |
| Settings.SetFormatGuard | src/components/settings.tsx:53-63 | A listed format id becomes the format; any other value leaves the format as it was. |
| Settings.ParseSpace | src/components/settings.tsx:97-107 | The palette-space group's guard; see Settings.ParseSpaceInverse (accepts exactly the ten ids, each naming its own space). |
| Settings.SetPaletteSpace | src/components/settings.tsx:97-109 | The palette space after the group reports a value; see Settings.SetPaletteSpaceGuard. |
| Settings.ParseSpaceInverse | src/components/settings.tsx:97-107 | The palette-space guard accepts a value exactly when it is one of the ten space ids, and each id names its own space. |
| Settings.SpaceIdInjective | src/components/settings.tsx:97-107 | The ten space ids are pairwise different. |
| Settings.SetPaletteSpaceGuard | src/components/settings.tsx:97-109 | A listed space id becomes the palette space; any other value leaves it as it was. |
| Settings.Example | src/components/settings.tsx:68-91 | The example text beside each format's radio item; see Settings.ExampleIsRed and Settings.ExampleShape. |
| Settings.ExampleIsRed | src/components/settings.tsx:68-91 | Every format's example text is pure red rendered in that format. |
| Settings.ChannelShape | src/components/settings.tsx:68-91 | About this model's reference renderer, not about code of the program: a channel's text is non-empty, starts with a digit, holds no comma and no space, and holds '%' exactly in the percentage unit. It is used to read the example literals through Settings.ExampleShape. |
| Settings.RenderShape | src/components/settings.tsx:68-91 | About this model's reference renderer, not about code of the program: a rendered byte triple holds a comma exactly in legacy syntax, a '%' exactly in the percentage unit, and the "rgb(…)" wrapper exactly in a wrapped format. Its pure-red instance gives Settings.ExampleShape. |
| Settings.ExampleShape | src/components/settings.tsx:68-91 | The eight examples tell their formats apart: comma exactly for legacy, '%' exactly for percentage, wrapper exactly for wrapped. |

## Left out

- Arithmetic is exact: the conversions are computed on exact rationals, not on IEEE-754 doubles. For bytes, the reference lemmas fix every printed integer exactly; a double rounding that lands on the other side of a `Math.floor` or `Math.round` step is not modelled.
- ColorUtils.RgbToHex: the 32-bit signed shifts `r << 16` and `g << 8` are written as multiplication by 65536 and 256. The two agree for channels in 0..255, the range the model assumes.
- The `parseInt(('' + r).replace(/\s/g, ''), 10)` step of `rgbToCmyk` is the identity on integers in 0..255, so the model leaves it out.
- Channel values outside 0..255, fractional channels and `NaN` are outside the model: every conversion requires bytes.
- Settings.RenderRgb: the percentage unit is rendered with a reference rule of this model (a channel's share of 255 as a rounded percentage). The program renders palette colours through the colour-swatch formatters and the colorjs.io library, which are not part of this model.
- The notification timer and the toast's open flag (`handleShowNotification` and the cleanup effect) are timing and are left out.
- The clipboard write is asynchronous browser I/O. The model records each text handed to it in the log `Palette.Session.copied`, and does not model a write that fails.
- Canvas drawing, image loading, the pointer position, reading the pixel, and the pointer circle's style are DOM and canvas work. A sampled pixel is a parameter of `Palette.Session.SampleColor`.
- The radio items' rendering and labels, the popover, and the rest of the page's markup are presentation only.
