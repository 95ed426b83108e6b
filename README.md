# Colour picker core, modelled in Dafny

This project models the computational core of a single-page image colour
picker. The picker shows an uploaded image on a canvas. A mouse move shows a
magnifier beside the pointer. A click reads the pixel under the pointer and
shows its colour as HEX, RGB, RGBA, HSL and HSLA text. The model covers
these parts of `script.js`:

- `numeric.dfy` (`Numeric`): bytes, `Math.round` as `Floor(x + 1/2)` over exact reals, and
  min/max helpers.
- `hex.dfy` (`Hex`): `rgbToHex` and its `toHex` helper (`toString(16)` padded to two
  digits), plus a reader for `#rrggbb` text that serves as the inverse.
- `hsl.dfy` (`Hsl`): `rgbToHsl` over exact rationals, plus the standard HSL-to-RGB
  conversion that serves as its exact inverse before rounding.
- `geometry.dfy` (`Geometry`): `getCanvasCoordinates`, which scales a pointer position
  to a canvas pixel, floors it and clamps it. This includes what JavaScript
  does when the rectangle has no extent (Infinity and NaN).
- `magnifier.dfy` (`Magnifier`): the mousemove handler's placement of the magnifier,
  flipped to the other side of the pointer near the right or bottom edge.
- `display.dfy` (`Display`): `displayImage`'s scaling to at most 800 by 600, over reals, and
  the integer canvas size that results.
- `text.dfy` (`Text`): how template literals render integers, a two-decimal alpha, and fixed
  text. It also has a reader for such templates, which serves as the inverse of rendering.
- `color_values.dfy` (`ColorValues`): `updateColorValues`, i.e. the position, hex, rgb, rgba, hsl and
  hsla texts for a clicked pixel. Each text is proved to read back as the values that went in.

Alpha reaches `updateColorValues` as `pixel[3] / 255`. The model carries
the alpha byte `k` instead, and `a.toFixed(2)` is `round(100 k / 255)`
hundredths. No alpha byte lies near a rounding tie: the distance of
`100 k / 255` from any `m + 1/2` is `|200 k - 510 m - 255| / 510`, whose
numerator is odd and a multiple of 5, so the distance is at least 5/510 of a
hundredth. That margin is far larger than the error of the double nearest
`k / 255`, so toFixed, working on that double, gives the same digits.

## Model

| member | source | states |
|---|---|---|
| Numeric.Round | script.js:266-268 | Math.round gives the integer within half a unit of x, rounding halves up |
| Numeric.RoundMonotone | script.js:266-268 | rounding preserves order |
| Numeric.RoundIntegral | script.js:266-268 | rounding an integer gives it back |
| Numeric.Max3 | script.js:242 | Math.max of three is an upper bound and one of its arguments |
| Numeric.Min3 | script.js:243 | Math.min of three is a lower bound and one of its arguments |
| Numeric.Max | script.js:124-125 | Math.max of two integers, the lower clamp, is an upper bound and one of its arguments |
| Numeric.Min | script.js:124-125 | Math.min of two integers, the upper clamp, is a lower bound and one of its arguments |
| Hex.HexDigit | script.js:229 | the digit toString(16) writes for a value below 16 is a lowercase hex digit, a decimal digit exactly below 10 (HexDigitValue inverts it) |
| Hex.HexString | script.js:229 | n.toString(16) is a non-empty string of lowercase hex digits |
| Hex.HexStringValue | script.js:229 | the hex numeral read back is n |
| Hex.HexStringLength | script.js:229-230 | the numeral has one digit exactly when n < 16, at most two below 256, and three or more from 256 |
| Hex.ToHex | script.js:228-231 | toHex gives lowercase hex digits, at least two of them and exactly two below 256, with a leading '0' below 16 |
| Hex.ToHexOfByte | script.js:228-231 | toHex of a byte is two digits, high nibble then low, with a leading '0' exactly when n < 16 |
| Hex.ToHexWide | script.js:228-231 | toHex of 256 or more is not padded and is longer than two digits |
| Hex.ToHexValue | script.js:228-231 | toHex's text reads back as n |
| Hex.RgbToHex | script.js:227-234 | rgbToHex gives seven characters: '#' and then six hex digits |
| Hex.RgbToHexShape | script.js:227-234 | the digits are toHex of r, g and b in turn, two per channel |
| Hex.HexRoundTrip | script.js:227-234 | reading rgbToHex's text back gives (r, g, b) |
| Hex.HexCanonical | script.js:227-234 | every #rrggbb text that reads as (r, g, b) is exactly rgbToHex(r, g, b) |
| Hex.RgbToHexInjective | script.js:227-234 | different colours give different hex texts |
| Hex.HexOfSample | script.js:227-234 | (12, 34, 56) gives "#0c2238" and (255, 0, 0) gives "#ff0000" |
| Hsl.Unit | script.js:238-240 | each channel divided by 255 lies in [0, 1] |
| Hsl.CaseOf | script.js:246-262 | the branch taken: gray exactly when max = min; the red case has r as maximum, green has g strictly above r, blue has b strictly above r and g; in each the minimum is the smaller of the other two |
| Hsl.RedHue | script.js:254 | the red-case hue lies in [0, 1/6] when g >= b and in [5/6, 1) when g < b |
| Hsl.GreenHue | script.js:257 | the green-case hue lies in [1/6, 1/2] |
| Hsl.BlueHue | script.js:260 | the blue-case hue lies in [1/2, 5/6] |
| Hsl.Saturation | script.js:250 | the saturation of a chromatic colour lies in (0, 1] under either branch |
| Hsl.FractionsOf | script.js:242-263 | before rounding, h lies in [0, 1) and s and l in [0, 1]; s is 0 exactly in the gray branch, which also gives h = 0 |
| Hsl.HslFractions | script.js:238-263 | on byte channels before rounding: h in [0, 1), s and l in [0, 1], s = 0 exactly when r = g = b, and then h = 0 |
| Hsl.RgbToHsl | script.js:237-270 | the rounded hue lies in [0, 360] and saturation and lightness in [0, 100] |
| Hsl.CaseOfChannels | script.js:246-262 | the branch taken: gray exactly when r = g = b, else r when it is a maximum, else g when it is, else b |
| Hsl.GrayHsl | script.js:244-247 | a gray has hue 0, saturation 0 and lightness round(100 r / 255) |
| Hsl.FractionSectors | script.js:252-262 | the red case's hue is within 1/6 of red; green's is in [1/6, 1/2]; blue's is in (1/2, 5/6) |
| Hsl.HueSectors | script.js:252-266 | the same sectors in rounded degrees: red within 60 of 0/360, green in [60, 180], blue in [180, 300] |
| Hsl.TiesAgree | script.js:252-262 | where two channels tie for the maximum, the two hue formulas give the same hue, so the case order does not matter |
| Hsl.Primaries | script.js:237-270 | red, green and blue give (0, 100, 50), (120, 100, 50) and (240, 100, 50) |
| Hsl.BlackAndWhite | script.js:244-247 | black gives (0, 0, 0) and white (0, 0, 100) |
| Hsl.HueReaches360 | script.js:254-266 | (255, 0, 1) has hue 360, so 360 and not only [0, 360) occurs |
| Hsl.FractionsRoundTrip | script.js:237-263 | converting the unrounded fractions back to RGB gives exactly r/255, g/255 and b/255 |
| Hsl.FractionsOfRoundTrip | script.js:242-263 | the same for any channels in [0, 1] |
| Hsl.RedRoundTrip | script.js:253-255 | the back-conversion is exact in the red case |
| Hsl.GreenRoundTrip | script.js:256-258 | the back-conversion is exact in the green case |
| Hsl.BlueRoundTrip | script.js:259-261 | the back-conversion is exact in the blue case |
| Hsl.RoundingError | script.js:265-269 | each rounded component is within half a unit of its exact value |
| Hsl.RoundedLosesMore | script.js:237-270 | (3, 0, 0) gives (0, 100, 1), which converts back to a red of 5.1: the rounded triple can lose two units |
| Geometry.MapAxis | script.js:112-126 | one axis is NaN exactly when the extent is 0 and either the canvas side is 0 or the offset is 0; otherwise an index in [0, dim - 1] (0 when dim is 0) |
| Geometry.CanvasCoordinates | script.js:110-127 | for a laid-out rectangle and a canvas of at least one pixel, any pointer position gives a pixel inside the canvas; NaN arises only as MapAxis says |
| Geometry.IdentityScale | script.js:116-125 | when the rectangle is canvas-sized, the pixel is the floored offset, clamped |
| Geometry.InsideUnclamped | script.js:112-125 | inside the rectangle the clamp changes nothing |
| Geometry.Monotone | script.js:112-125 | moving the pointer right or down never moves the pixel left or up |
| Geometry.ZeroExtent | script.js:116-126 | with a zero extent the pixel is dim - 1 for a pointer past the rectangle's edge, 0 for one before it, and NaN for one exactly on it |
| Magnifier.Place | script.js:134-150 | left and top as the two flip rules give them; the box keeps a 20 px gap from the pointer; placed right or below, it ends inside the viewport; in a large enough viewport it lies wholly inside |
| Display.Ratio | script.js:97-98 | the scale factor for an oversized image lies in (0, 1) |
| Display.DisplaySize | script.js:89-101 | the drawn size is at most 800 by 600 and never larger than the image; it keeps the aspect ratio; it is unchanged when the image fits, and otherwise one side meets its limit |
| Display.FitsBoth | script.js:97-100 | the chosen ratio fits both limits, and one limit exactly |
| Display.CanvasSize | script.js:103-104 | the canvas's integer size is at most 800 by 600 and at most the image's |
| Display.ThinImage | script.js:97-104 | a 10000 by 1 image gets an 800 by 0 canvas |
| Text.DigitChar | script.js:213 | a digit's character is a decimal digit |
| Text.DigitValue | script.js:213 | reading a digit character inverts DigitChar |
| Text.Decimal | script.js:213 | `${n}` of a non-negative integer is a non-empty run of digits with no leading zero, and it is "0" exactly for 0 |
| Text.IntText | script.js:206-223 | `${n}` of an integer starts with '-' exactly when n is negative, followed by a numeral with no leading zero that is not "0"; a non-negative n gives such a numeral alone |
| Text.DecimalValue | script.js:213 | the numeral read back is n |
| Text.DigitRun | script.js:213 | the count of leading digits, which is followed by a non-digit or the end |
| Text.DigitRunOfNumeral | script.js:213 | a numeral followed by a non-digit is read to its end |
| Text.ReadIntText | script.js:206-213 | an integer's text, minus sign included, reads back as the integer, leaving what follows |
| Text.DecimalOfNumeral | script.js:213 | every numeral without a leading zero is the text `${n}` writes for its value |
| Text.ReadNatCanonical | script.js:213 | what the numeral reader accepts is exactly `${m}` for its value m, then what follows |
| Text.ReadIntCanonical | script.js:206-223 | what the integer reader accepts is exactly `${v}` for its value v, then what follows; "07" and "-0" are refused |
| Text.RenderPiece | script.js:206-223 | an interpolated integer's text reads back as that integer with nothing left over; a two-decimal part below 100 is two digits whose value it is |
| Text.Render | script.js:206-223 | a template literal's text gives every interpolated value at least one character (ParseRender and RenderOnly show that text and values determine each other) |
| Text.ParseRender | script.js:206-223 | any readable template's text, read against its form, gives back exactly the interpolated values |
| Text.RenderOnly | script.js:206-223 | the only text that reads against a template's form as the template's values is the template's own text |
| Text.RenderInjective | script.js:206-223 | two readable templates of one form that render the same text carry the same values |
| ColorValues.AlphaCents | script.js:195-216 | a.toFixed(2) in hundredths lies in [0, 100], within half a hundredth of 100 k / 255; 0 for k = 0, 100 for k = 255 |
| ColorValues.AlphaFarFromTies | script.js:195-216 | 100 k / 255 is at least 5/510 away from every rounding tie m + 1/2 |
| ColorValues.FieldFacts | script.js:206-223 | a fixed-text-then-integer field keeps a template readable and adds its one value |
| ColorValues.Close | script.js:206-223 | a closing literal such as ")" keeps a template readable and carries no value |
| ColorValues.AlphaField | script.js:216-223 | the `${a.toFixed(2)}` field is readable and carries the whole part and the two decimals of the rounded hundredths |
| ColorValues.PositionTemplate | script.js:206 | the position template is readable, of the position form, and carries (x, y) |
| ColorValues.RgbTemplate | script.js:213 | the rgb template is readable, of the rgb form, and carries (r, g, b) |
| ColorValues.RgbaTemplate | script.js:216 | the rgba template carries (r, g, b) and alpha's whole part and two decimals |
| ColorValues.HslTemplate | script.js:220 | the hsl template carries the hue, saturation and lightness |
| ColorValues.HslaTemplate | script.js:223 | the hsla template carries the three HSL values and alpha's whole part and two decimals |
| ColorValues.PositionReadsBack | script.js:206 | the position text reads back as (x, y) |
| ColorValues.RgbReadsBack | script.js:213 | the rgb text reads back as (r, g, b) |
| ColorValues.RgbaReadsBack | script.js:216 | the rgba text reads back as (r, g, b) and alpha's whole part and decimals |
| ColorValues.HslReadsBack | script.js:219-220 | the hsl text reads back as the hue, saturation and lightness of rgbToHsl |
| ColorValues.HslaReadsBack | script.js:219-223 | the hsla text reads back as rgbToHsl's three values and the alpha |
| ColorValues.UpdateColorValues | script.js:201-224 | every field the handler fills reads back: the position as (x, y), the hex as (r, g, b), rgb, rgba, hsl and hsla as their values |
| ColorValues.TextsDetermined | script.js:201-224 | any six texts that read back as the pixel's values are exactly the handler's texts, so the reading pins the rendering down |
| ColorValues.HalfAlpha | script.js:195-216 | alpha byte 128 shows as 0.50 |
| ColorValues.NumeralSamples | script.js:213 | 0, 100 and 255 render as "0", "100" and "255" |
| ColorValues.WhiteRgba | script.js:216 | the rgba text of white with alpha byte 128 is "rgba(255, 255, 255, 0.50)" |
| ColorValues.WhiteHsla | script.js:219-223 | the hsla text of white with alpha byte 128 is "hsla(0, 0%, 100%, 0.50)" |
| ColorValues.AlphaText | script.js:216 | alpha byte 128 renders as "0.50" between its prefix and the closing text |

## Left out

- DOM lookups, element state, the upload, drop and paste event wiring (including the loop over clipboard items), and the FileReader and Image loading: these are browser I/O with no computation to model.
- Drawing to the canvas and `getImageData`: the pixel under the pointer becomes the `Pixel` parameter of `UpdateColorValues`, and the click handler (script.js:185-198) that reads it is not modelled.
- The magnifier's `drawImage` crop and the `${left}px` style strings: these are drawing calls and string formatting of doubles. The model stops at the numeric `left` and `top`.
- The preview background at script.js:203 puts the raw double `a` into its text, and JavaScript's shortest double-to-text conversion is not modelled.
- The copy-to-clipboard handler and the toast timer: clipboard I/O and timers.
- The reset when a new image loads: it writes constant texts and does not go through `updateColorValues`.
- Doubles: all arithmetic is on exact reals, and `-0` is not modelled. Where JavaScript's doubles can give a different answer depends on the operation:
  - `Math.round` in `rgbToHsl` (script.js:266-268): only when the value lands within rounding error of a `.5` tie.
  - `Math.floor` in `getCanvasCoordinates` (script.js:119-120): near every integer. The double product can fall just below an integer that the exact product reaches, and the source then picks the pixel one lower. For example, an 800-pixel canvas drawn 322 px wide with the pointer 161 px in gives 399.99999999999994 and pixel 399 in doubles, while `Geometry.MapAxis` gives pixel 400.
  - The `>` comparisons of the magnifier rule (script.js:143, 148): only at the boundary itself, where a double sum can land on the other side.
- Geometry.MapAxis: a zero rendered extent gets no separate "unavailable" result. The code divides by zero and returns what Infinity and NaN produce, and the model follows it.
- ColorValues.UpdateColorValues: the position is taken as two integers, so a NaN coordinate (possible only with a zero-extent rectangle) printed as "NaN" is not modelled.
- Hsl.FractionsRoundTrip: converting HSL back to RGB is exact only before rounding. The code has no back-conversion; after rounding to whole percents a channel can move by two units (`Hsl.RoundedLosesMore`).
- Display.DisplaySize: the scaling is stated over exact reals. Double rounding of `width * ratio` is not modelled.
