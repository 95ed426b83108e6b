/** updateColorValues: the texts the picker shows for the clicked pixel, and
    readers for them, which show that each text gives back what went in. */
module ColorValues {
  import opened Numeric
  import opened Text
  import Hex
  import Hsl

  /** The pixel read from the canvas: four bytes, alpha last. */
  datatype Pixel = Pixel(r: Byte, g: Byte, b: Byte, a: Byte)

  /** The fields the click handler fills in. */
  datatype Texts = Texts(position: string, hex: string, rgb: string, rgba: string, hsl: string, hsla: string)

  /** (k / 255).toFixed(2) in hundredths: round(100 k / 255), a value in
      [0, 100] within half a hundredth of the exact alpha. */
  function AlphaCents(k: Byte): (c: nat)
    ensures c <= 100
    ensures Abs(c as real - 100.0 * k as real / 255.0) <= 0.5
    ensures k == 0 ==> c == 0
    ensures k == 255 ==> c == 100
  {
    assert 0.0 <= 100.0 * k as real / 255.0 <= 100.0;
    RoundMonotone(100.0 * k as real / 255.0, 100.0);
    Round(100.0 * k as real / 255.0)
  }

  /** toFixed rounds a tie upwards, as Round does; but 100 k / 255 is never
      near a tie.  Its distance from m + 1/2 is |200 k - 510 m - 255| / 510,
      and the numerator is odd (so not 0) and a multiple of 5, so at least 5.
      That margin of 5/510 hundredths dwarfs the error of the double nearest
      k / 255, so rounding that double agrees with rounding the exact fraction. */
  lemma AlphaFarFromTies(k: Byte, m: int)
    ensures Abs(100.0 * k as real / 255.0 - (m as real + 0.5)) >= 5.0 / 510.0
  {
    var w := 40 * k - 102 * m - 51;
    var z := 5 * w;
    assert z == 2 * (100 * k - 255 * m - 128) + 1;
    assert w != 0;
    var d := 100.0 * k as real / 255.0 - (m as real + 0.5);
    assert d == z as real / 510.0;
    if w > 0 {
      assert z as real >= 5.0;
    } else {
      assert z as real <= -5.0;
    }
  }

  /** Fixed text, then an interpolated integer, then the rest of the template. */
  function Field(prefix: string, v: int, rest: Template): Template {
    Then(Lit(prefix), Then(Int(v), rest))
  }

  function FieldForm(prefix: string, next: Form): Form {
    Expect(LitSlot(prefix), Expect(IntSlot, next))
  }

  /** A field is readable when what follows it is readable and starts off
      the digits; it contributes its one value. */
  lemma FieldFacts(prefix: string, v: int, rest: Template)
    requires |prefix| > 0 && !IsDigit(prefix[0])
    requires Readable(rest) && StartsOffDigits(rest)
    ensures Readable(Field(prefix, v, rest)) && StartsOffDigits(Field(prefix, v, rest))
    ensures Values(Field(prefix, v, rest)) == [v] + Values(rest)
    ensures FormOf(Field(prefix, v, rest)) == FieldForm(prefix, FormOf(rest))
  {
  }

  /** The closing text of a template. */
  function Close(text: string): (t: Template)
    requires |text| > 0 && !IsDigit(text[0])
    ensures Readable(t) && StartsOffDigits(t)
    ensures Values(t) == [] && FormOf(t) == Expect(LitSlot(text), Done)
  {
    Then(Lit(text), End)
  }

  /** `${a.toFixed(2)}` after the text prefix (whole part, point, two
      decimals), then the closing text: readable, carrying the whole part and
      the decimals. */
  function AlphaField(prefix: string, k: Byte, close: string): (t: Template)
    requires |prefix| > 0 && !IsDigit(prefix[0])
    requires |close| > 0 && !IsDigit(close[0])
    ensures Readable(t) && StartsOffDigits(t)
    ensures Values(t) == [AlphaCents(k) / 100, AlphaCents(k) % 100]
    ensures FormOf(t) == AlphaForm(prefix, close)
  {
    var c := AlphaCents(k);
    var last := Close(close);
    var cents := Then(Cents(c % 100), last);
    assert Readable(cents) && Values(cents) == [c % 100];
    var tail := Then(Lit("."), cents);
    assert Readable(tail) && StartsOffDigits(tail) && Values(tail) == [c % 100];
    FieldFacts(prefix, c / 100, tail);
    Field(prefix, c / 100, tail)
  }

  function AlphaForm(prefix: string, close: string): Form {
    FieldForm(prefix, Expect(LitSlot("."), Expect(CentsSlot, Expect(LitSlot(close), Done))))
  }

  /** The forms of the texts, for reading them back. */
  const PositionForm: Form := FieldForm("Position: (", FieldForm(", ", Expect(LitSlot(")"), Done)))
  const RgbForm: Form := FieldForm("rgb(", FieldForm(", ", FieldForm(", ", Expect(LitSlot(")"), Done))))
  const RgbaForm: Form := FieldForm("rgba(", FieldForm(", ", FieldForm(", ", AlphaForm(", ", ")"))))
  const HslForm: Form := FieldForm("hsl(", FieldForm(", ", FieldForm("%, ", Expect(LitSlot("%)"), Done))))
  const HslaForm: Form := FieldForm("hsla(", FieldForm(", ", FieldForm("%, ", AlphaForm("%, ", ")"))))

  /** `Position: (${x}, ${y})`. */
  function PositionTemplate(x: int, y: int): (t: Template)
    ensures Readable(t) && FormOf(t) == PositionForm && Values(t) == [x, y]
  {
    var t2 := Close(")");
    FieldFacts(", ", y, t2);
    var t1 := Field(", ", y, t2);
    FieldFacts("Position: (", x, t1);
    Field("Position: (", x, t1)
  }

  /** `rgb(${r}, ${g}, ${b})`. */
  function RgbTemplate(r: Byte, g: Byte, b: Byte): (t: Template)
    ensures Readable(t) && FormOf(t) == RgbForm && Values(t) == [r, g, b]
  {
    var t3 := Close(")");
    FieldFacts(", ", b, t3);
    var t2 := Field(", ", b, t3);
    FieldFacts(", ", g, t2);
    var t1 := Field(", ", g, t2);
    FieldFacts("rgb(", r, t1);
    Field("rgb(", r, t1)
  }

  /** `rgba(${r}, ${g}, ${b}, ${a.toFixed(2)})`. */
  function RgbaTemplate(r: Byte, g: Byte, b: Byte, a: Byte): (t: Template)
    ensures Readable(t) && FormOf(t) == RgbaForm
    ensures Values(t) == [r, g, b, AlphaCents(a) / 100, AlphaCents(a) % 100]
  {
    var t3 := AlphaField(", ", a, ")");
    FieldFacts(", ", b, t3);
    var t2 := Field(", ", b, t3);
    FieldFacts(", ", g, t2);
    var t1 := Field(", ", g, t2);
    FieldFacts("rgba(", r, t1);
    Field("rgba(", r, t1)
  }

  /** `hsl(${hsl.h}, ${hsl.s}%, ${hsl.l}%)`. */
  function HslTemplate(c: Hsl.Hsl): (t: Template)
    ensures Readable(t) && FormOf(t) == HslForm && Values(t) == [c.h, c.s, c.l]
  {
    var t3 := Close("%)");
    FieldFacts("%, ", c.l, t3);
    var t2 := Field("%, ", c.l, t3);
    FieldFacts(", ", c.s, t2);
    var t1 := Field(", ", c.s, t2);
    FieldFacts("hsl(", c.h, t1);
    Field("hsl(", c.h, t1)
  }

  /** `hsla(${hsl.h}, ${hsl.s}%, ${hsl.l}%, ${a.toFixed(2)})`. */
  function HslaTemplate(c: Hsl.Hsl, a: Byte): (t: Template)
    ensures Readable(t) && FormOf(t) == HslaForm
    ensures Values(t) == [c.h, c.s, c.l, AlphaCents(a) / 100, AlphaCents(a) % 100]
  {
    var t3 := AlphaField("%, ", a, ")");
    FieldFacts("%, ", c.l, t3);
    var t2 := Field("%, ", c.l, t3);
    FieldFacts(", ", c.s, t2);
    var t1 := Field(", ", c.s, t2);
    FieldFacts("hsla(", c.h, t1);
    Field("hsla(", c.h, t1)
  }

  /** The texts t show the pixel p at (x, y): each reads back as its values. */
  predicate ShowsPixel(t: Texts, p: Pixel, x: int, y: int) {
    var c := Hsl.RgbToHsl(p.r, p.g, p.b);
    var cents := AlphaCents(p.a);
    && Parse(PositionForm, t.position) == Some([x, y])
    && Hex.ParseHex(t.hex) == Some((p.r, p.g, p.b))
    && Parse(RgbForm, t.rgb) == Some([p.r, p.g, p.b])
    && Parse(RgbaForm, t.rgba) == Some([p.r, p.g, p.b, cents / 100, cents % 100])
    && Parse(HslForm, t.hsl) == Some([c.h, c.s, c.l])
    && Parse(HslaForm, t.hsla) == Some([c.h, c.s, c.l, cents / 100, cents % 100])
  }

  /** updateColorValues for the pixel p at canvas position (x, y): its texts
      show the pixel, and by TextsDetermined they are the only texts that do. */
  function UpdateColorValues(p: Pixel, x: int, y: int): (t: Texts)
    ensures ShowsPixel(t, p, x, y)
  {
    var c := Hsl.RgbToHsl(p.r, p.g, p.b);
    PositionReadsBack(x, y);
    Hex.HexRoundTrip(p.r, p.g, p.b);
    RgbReadsBack(p.r, p.g, p.b);
    RgbaReadsBack(p.r, p.g, p.b, p.a);
    HslReadsBack(c);
    HslaReadsBack(c, p.a);
    Texts(Render(PositionTemplate(x, y)),
          Hex.RgbToHex(p.r, p.g, p.b),
          Render(RgbTemplate(p.r, p.g, p.b)),
          Render(RgbaTemplate(p.r, p.g, p.b, p.a)),
          Render(HslTemplate(c)),
          Render(HslaTemplate(c, p.a)))
  }

  /** No other texts show the pixel: zero-padded numerals, "-0" or any other
      spelling of the same values is refused by the readers. */
  lemma TextsDetermined(t: Texts, p: Pixel, x: int, y: int)
    requires ShowsPixel(t, p, x, y)
    ensures t == UpdateColorValues(p, x, y)
  {
    var c := Hsl.RgbToHsl(p.r, p.g, p.b);
    Hex.HexCanonical(t.hex, p.r, p.g, p.b);
    RenderOnly(PositionTemplate(x, y), t.position);
    RenderOnly(RgbTemplate(p.r, p.g, p.b), t.rgb);
    RenderOnly(RgbaTemplate(p.r, p.g, p.b, p.a), t.rgba);
    RenderOnly(HslTemplate(c), t.hsl);
    RenderOnly(HslaTemplate(c, p.a), t.hsla);
  }

  lemma PositionReadsBack(x: int, y: int)
    ensures Parse(PositionForm, Render(PositionTemplate(x, y))) == Some([x, y])
  {
    ParseRender(PositionTemplate(x, y));
  }

  lemma RgbReadsBack(r: Byte, g: Byte, b: Byte)
    ensures Parse(RgbForm, Render(RgbTemplate(r, g, b))) == Some([r, g, b])
  {
    ParseRender(RgbTemplate(r, g, b));
  }

  lemma RgbaReadsBack(r: Byte, g: Byte, b: Byte, a: Byte)
    ensures Parse(RgbaForm, Render(RgbaTemplate(r, g, b, a))) ==
            Some([r, g, b, AlphaCents(a) / 100, AlphaCents(a) % 100])
  {
    ParseRender(RgbaTemplate(r, g, b, a));
  }

  lemma HslReadsBack(c: Hsl.Hsl)
    ensures Parse(HslForm, Render(HslTemplate(c))) == Some([c.h, c.s, c.l])
  {
    ParseRender(HslTemplate(c));
  }

  lemma HslaReadsBack(c: Hsl.Hsl, a: Byte)
    ensures Parse(HslaForm, Render(HslaTemplate(c, a))) ==
            Some([c.h, c.s, c.l, AlphaCents(a) / 100, AlphaCents(a) % 100])
  {
    ParseRender(HslaTemplate(c, a));
  }

  /** Alpha byte 128 is 128 / 255 = 0.50196..., which toFixed(2) shows as 0.50. */
  lemma HalfAlpha()
    ensures AlphaCents(128) == 50
  {
    var x := 100.0 * 128 as real / 255.0;
    assert 50.0 < x < 50.5;
  }

  lemma NumeralSamples()
    ensures IntText(0) == "0" && IntText(100) == "100" && IntText(255) == "255"
  {
    assert Decimal(25) == "25";
    assert Decimal(10) == "10";
  }

  lemma RenderField(prefix: string, v: int, rest: Template)
    ensures Render(Field(prefix, v, rest)) == prefix + IntText(v) + Render(rest)
  {
  }

  /** The rgba text of any pixel, field by field. */
  lemma RenderRgba(r: Byte, g: Byte, b: Byte, a: Byte)
    ensures Render(RgbaTemplate(r, g, b, a))
         == "rgba(" + IntText(r) + (", " + IntText(g) + (", " + IntText(b) + Render(AlphaField(", ", a, ")"))))
  {
    var t3 := AlphaField(", ", a, ")");
    RenderField(", ", b, t3);
    RenderField(", ", g, Field(", ", b, t3));
    RenderField("rgba(", r, Field(", ", g, Field(", ", b, t3)));
  }

  /** The hsla text of any pixel, field by field. */
  lemma RenderHsla(c: Hsl.Hsl, a: Byte)
    ensures Render(HslaTemplate(c, a))
         == "hsla(" + IntText(c.h) + (", " + IntText(c.s) + ("%, " + IntText(c.l) + Render(AlphaField("%, ", a, ")"))))
  {
    var t3 := AlphaField("%, ", a, ")");
    RenderField("%, ", c.l, t3);
    RenderField(", ", c.s, Field("%, ", c.l, t3));
    RenderField("hsla(", c.h, Field(", ", c.s, Field("%, ", c.l, t3)));
  }

  /** The rgba text of a half-transparent white pixel. */
  lemma WhiteRgba()
    ensures Render(RgbaTemplate(255, 255, 255, 128)) == "rgba(255, 255, 255, 0.50)"
  {
    RenderRgba(255, 255, 255, 128);
    NumeralSamples();
    AlphaText(", ", 128, ")");
    WhiteRgbaText(IntText(255), Render(AlphaField(", ", 128, ")")));
  }

  /** The rgba sample, as a matter of strings alone. */
  lemma WhiteRgbaText(w: string, alpha: string)
    requires w == "255" && alpha == ", 0.50)"
    ensures "rgba(" + w + (", " + w + (", " + w + alpha)) == "rgba(255, 255, 255, 0.50)"
  {
  }

  /** The hsla text of the same pixel. */
  lemma WhiteHsla()
    ensures Render(HslaTemplate(Hsl.RgbToHsl(255, 255, 255), 128)) == "hsla(0, 0%, 100%, 0.50)"
  {
    Hsl.BlackAndWhite();
    RenderHsla(Hsl.RgbToHsl(255, 255, 255), 128);
    NumeralSamples();
    AlphaText("%, ", 128, ")");
    WhiteHslaText(IntText(0), IntText(100), Render(AlphaField("%, ", 128, ")")));
  }

  /** The hsla sample, as a matter of strings alone. */
  lemma WhiteHslaText(zero: string, full: string, alpha: string)
    requires zero == "0" && full == "100" && alpha == "%, 0.50)"
    ensures "hsla(" + zero + (", " + zero + ("%, " + full + alpha)) == "hsla(0, 0%, 100%, 0.50)"
  {
  }

  /** Alpha byte 128 after a prefix renders as the prefix, "0.50" and the close. */
  lemma AlphaText(prefix: string, k: Byte, close: string)
    requires |prefix| > 0 && !IsDigit(prefix[0])
    requires |close| > 0 && !IsDigit(close[0])
    requires k == 128
    ensures Render(AlphaField(prefix, k, close)) == prefix + "0.50" + close
  {
    HalfAlpha();
    NumeralSamples();
    var last := Then(Lit(close), End);
    assert Render(last) == close;
    var tail := Then(Lit("."), Then(Cents(50), last));
    assert RenderPiece(Cents(50)) == "50" by {
      assert DigitChar(5) == '5' && DigitChar(0) == '0';
    }
    assert Render(tail) == "." + "50" + close;
    RenderField(prefix, 0, tail);
  }
}
