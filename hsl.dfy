/** rgbToHsl: a colour's hue in degrees and its saturation and lightness in
    percent.  Every channel is an integer over 255, so the arithmetic is done
    on exact rationals; Math.round is Floor(x + 1/2). */
module Hsl {
  import opened Numeric

  /** The rounded result: degrees, percent, percent. */
  datatype Hsl = Hsl(h: int, s: int, l: int)

  /** The values before rounding, each a fraction of a full turn or of 100%. */
  datatype Fractions = Fractions(h: real, s: real, l: real)

  /** Which branch computes the hue: the achromatic one (max === min), or the
      switch case that matches Math.max first, tried in the order r, g, b. */
  datatype HueCase = Gray | RedMax | GreenMax | BlueMax

  /** A channel scaled into [0, 1], as `r /= 255` does. */
  function Unit(c: Byte): (x: real)
    ensures 0.0 <= x <= 1.0
  {
    c as real / 255.0
  }

  function CaseOf(r: real, g: real, b: real): (k: HueCase)
    ensures k == Gray <==> Max3(r, g, b) == Min3(r, g, b)
    ensures k == RedMax ==> Max3(r, g, b) == r && Min3(r, g, b) == (if g < b then g else b)
    ensures k == GreenMax ==> Max3(r, g, b) == g > r && Min3(r, g, b) == (if r < b then r else b)
    ensures k == BlueMax ==> Max3(r, g, b) == b > r && b > g && Min3(r, g, b) == (if r < g then r else g)
  {
    var mx := Max3(r, g, b);
    var mn := Min3(r, g, b);
    if mx == mn then Gray
    else if mx == r then RedMax
    else if mx == g then GreenMax
    else BlueMax
  }

  /** The hue formulas of the three switch cases, d being max - min.  Each
      puts the hue in its case's part of the circle: the red one within a
      sixth of a turn of red, the green one between yellow and cyan, the blue
      one between cyan and magenta. */
  function RedHue(r: real, g: real, b: real, d: real): (h: real)
    requires d > 0.0 && -d <= g - b <= d
    ensures g >= b ==> 0.0 <= h <= 1.0 / 6.0
    ensures g < b ==> 5.0 / 6.0 <= h < 1.0
  {
    RatioBounds(g - b, d);
    ((g - b) / d + (if g < b then 6.0 else 0.0)) / 6.0
  }

  function GreenHue(r: real, g: real, b: real, d: real): (h: real)
    requires d > 0.0 && -d <= b - r <= d
    ensures 1.0 / 6.0 <= h <= 0.5
  {
    RatioBounds(b - r, d);
    ((b - r) / d + 2.0) / 6.0
  }

  function BlueHue(r: real, g: real, b: real, d: real): (h: real)
    requires d > 0.0 && -d <= r - g <= d
    ensures 0.5 <= h <= 5.0 / 6.0
  {
    RatioBounds(r - g, d);
    ((r - g) / d + 4.0) / 6.0
  }

  /** The saturation of a chromatic colour: d over 2 - max - min when the
      lightness is above one half, and over max + min otherwise. */
  function Saturation(mx: real, mn: real): (s: real)
    requires 0.0 <= mn < mx <= 1.0
    ensures 0.0 < s <= 1.0
  {
    var d := mx - mn;
    if (mx + mn) / 2.0 > 0.5 then
      FractionBounds(d, 2.0 - mx - mn);
      d / (2.0 - mx - mn)
    else
      FractionBounds(d, mx + mn);
      d / (mx + mn)
  }

  /** What rgbToHsl computes before it rounds, on channels already in [0, 1]. */
  function FractionsOf(r: real, g: real, b: real): (f: Fractions)
    requires 0.0 <= r <= 1.0 && 0.0 <= g <= 1.0 && 0.0 <= b <= 1.0
    ensures 0.0 <= f.h < 1.0 && 0.0 <= f.s <= 1.0 && 0.0 <= f.l <= 1.0
    ensures f.s == 0.0 <==> CaseOf(r, g, b) == Gray
    ensures CaseOf(r, g, b) == Gray ==> f.h == 0.0
  {
    var mx, mn := Max3(r, g, b), Min3(r, g, b);
    var l := (mx + mn) / 2.0;
    match CaseOf(r, g, b)
    case Gray => Fractions(0.0, 0.0, l)
    case RedMax =>
      RatioBounds(g - b, mx - mn);
      Fractions(RedHue(r, g, b, mx - mn), Saturation(mx, mn), l)
    case GreenMax =>
      RatioBounds(b - r, mx - mn);
      Fractions(GreenHue(r, g, b, mx - mn), Saturation(mx, mn), l)
    case BlueMax =>
      RatioBounds(r - g, mx - mn);
      Fractions(BlueHue(r, g, b, mx - mn), Saturation(mx, mn), l)
  }

  /** rgbToHsl on byte channels before it rounds: the saturation is 0
      exactly for a gray, which also gets hue 0. */
  function HslFractions(r: Byte, g: Byte, b: Byte): (f: Fractions)
    ensures 0.0 <= f.h < 1.0 && 0.0 <= f.s <= 1.0 && 0.0 <= f.l <= 1.0
    ensures f.s == 0.0 <==> r == g == b
    ensures r == g == b ==> f.h == 0.0
  {
    CaseOfChannels(r, g, b);
    FractionsOf(Unit(r), Unit(g), Unit(b))
  }

  /** rgbToHsl, with hue, saturation and lightness rounded to whole degrees
      and percentages: s and l lie in [0, 100] and h in [0, 360]. */
  function RgbToHsl(r: Byte, g: Byte, b: Byte): (c: Hsl)
    ensures 0 <= c.h <= 360 && 0 <= c.s <= 100 && 0 <= c.l <= 100
  {
    var f := HslFractions(r, g, b);
    Hsl(Round(f.h * 360.0), Round(f.s * 100.0), Round(f.l * 100.0))
  }

  lemma FractionBounds(x: real, y: real)
    requires 0.0 < x <= y
    ensures 0.0 < x / y <= 1.0
  {
    var q := x / y;
    assert q * y == x;
    MulLe(q, 1.0, y);
    MulLe(q, 0.0, y);
  }

  lemma RatioBounds(x: real, d: real)
    requires d > 0.0 && -d <= x <= d
    ensures -1.0 <= x / d <= 1.0
    ensures x < 0.0 ==> x / d < 0.0
    ensures x >= 0.0 ==> x / d >= 0.0
    ensures x < d ==> x / d < 1.0
    ensures -d < x ==> -1.0 < x / d
    ensures d * (x / d) == x
  {
    var q := x / d;
    assert q * d == x;
    MulLe(q, 1.0, d);
    assert q <= 1.0;
    MulLe(-1.0, q, d);
    assert -1.0 <= q;
    MulLt(q, 0.0, d);
    MulLt(q, 1.0, d);
    MulLt(-1.0, q, d);
  }

  /** Multiplying by a positive number keeps the order. */
  lemma MulLe(a: real, b: real, c: real)
    requires c > 0.0
    ensures a <= b <==> a * c <= b * c
  {
  }

  lemma MulLt(a: real, b: real, c: real)
    requires c > 0.0
    ensures a < b <==> a * c < b * c
  {
  }

  /** The branch taken, in terms of the integer channels: the gray branch
      exactly when all three are equal, and otherwise the first channel, in
      the order r, g, b, that holds the maximum. */
  lemma CaseOfChannels(r: Byte, g: Byte, b: Byte)
    ensures CaseOf(Unit(r), Unit(g), Unit(b)) == Gray <==> r == g == b
    ensures CaseOf(Unit(r), Unit(g), Unit(b)) == RedMax <==> r >= g && r >= b && !(r == g == b)
    ensures CaseOf(Unit(r), Unit(g), Unit(b)) == GreenMax <==> g > r && g >= b
    ensures CaseOf(Unit(r), Unit(g), Unit(b)) == BlueMax <==> b > r && b > g
  {
  }

  /** A gray (r = g = b) has hue 0, saturation 0 and lightness round(100 r / 255). */
  lemma GrayHsl(r: Byte)
    ensures RgbToHsl(r, r, r) == Hsl(0, 0, Round(100.0 * r as real / 255.0))
  {
  }

  /** The hue of each branch lies in that branch's sixth of the circle:
      red between magenta and yellow, green between yellow and cyan, blue
      between cyan and magenta. */
  lemma FractionSectors(r: Byte, g: Byte, b: Byte)
    ensures var f, k := HslFractions(r, g, b), CaseOf(Unit(r), Unit(g), Unit(b));
      && (k == RedMax ==> f.h <= 1.0 / 6.0 || 5.0 / 6.0 <= f.h)
      && (k == GreenMax ==> 1.0 / 6.0 <= f.h <= 0.5)
      && (k == BlueMax ==> 0.5 < f.h < 5.0 / 6.0)
  {
    var rr, gg, bb := Unit(r), Unit(g), Unit(b);
    var mx, mn := Max3(rr, gg, bb), Min3(rr, gg, bb);
    match CaseOf(rr, gg, bb)
    case Gray =>
    case RedMax =>
      RatioBounds(gg - bb, mx - mn);
    case GreenMax =>
      RatioBounds(bb - rr, mx - mn);
    case BlueMax =>
      CaseOfChannels(r, g, b);
      RatioBounds(rr - gg, mx - mn);
  }

  /** The same sectors in whole degrees, after rounding. */
  lemma HueSectors(r: Byte, g: Byte, b: Byte)
    ensures var h, k := RgbToHsl(r, g, b).h, CaseOf(Unit(r), Unit(g), Unit(b));
      && (k == Gray ==> h == 0)
      && (k == RedMax ==> h <= 60 || 300 <= h)
      && (k == GreenMax ==> 60 <= h <= 180)
      && (k == BlueMax ==> 180 <= h <= 300)
  {
    FractionSectors(r, g, b);
    var f := HslFractions(r, g, b);
    var k := CaseOf(Unit(r), Unit(g), Unit(b));
    if k == RedMax {
      if f.h <= 1.0 / 6.0 {
        RoundMonotone(f.h * 360.0, 60.0);
      } else {
        RoundMonotone(300.0, f.h * 360.0);
      }
    } else if k == GreenMax {
      RoundMonotone(60.0, f.h * 360.0);
      RoundMonotone(f.h * 360.0, 180.0);
    } else if k == BlueMax {
      RoundMonotone(180.0, f.h * 360.0);
      RoundMonotone(f.h * 360.0, 300.0);
    }
  }

  /** When two channels tie for the maximum, the formulas of both switch
      cases give the same hue, so the r-then-g-then-b order of the cases
      decides nothing about the result. */
  lemma TiesAgree(r: real, g: real, b: real, d: real)
    requires d > 0.0
    ensures r == g && g - b == d ==> RedHue(r, g, b, d) == GreenHue(r, g, b, d)
    ensures g == b && b - r == d ==> GreenHue(r, g, b, d) == BlueHue(r, g, b, d)
    ensures r == b && b - g == d ==> RedHue(r, g, b, d) == BlueHue(r, g, b, d)
  {
    assert d / d == 1.0;
    assert (-d) / d == -1.0;
  }

  /** The primaries: red is (0, 100, 50), green (120, 100, 50), blue (240, 100, 50). */
  lemma Primaries()
    ensures RgbToHsl(255, 0, 0) == Hsl(0, 100, 50)
    ensures RgbToHsl(0, 255, 0) == Hsl(120, 100, 50)
    ensures RgbToHsl(0, 0, 255) == Hsl(240, 100, 50)
  {
    assert HslFractions(255, 0, 0) == Fractions(0.0, 1.0, 0.5);
    assert HslFractions(0, 255, 0) == Fractions(1.0 / 3.0, 1.0, 0.5);
    assert HslFractions(0, 0, 255) == Fractions(2.0 / 3.0, 1.0, 0.5);
  }

  /** Black is (0, 0, 0) and white (0, 0, 100). */
  lemma BlackAndWhite()
    ensures RgbToHsl(0, 0, 0) == Hsl(0, 0, 0)
    ensures RgbToHsl(255, 255, 255) == Hsl(0, 0, 100)
  {
    GrayHsl(0);
    GrayHsl(255);
  }

  /** A hue of 360 does occur: (255, 0, 1) has hue round(359.76...) = 360. */
  lemma HueReaches360()
    ensures RgbToHsl(255, 0, 1).h == 360
  {
    var f := HslFractions(255, 0, 1);
    assert f.h == (6.0 - 1.0 / 255.0) / 6.0;
  }

  /** The standard HSL to RGB conversion, on exact fractions: chroma
      c = (1 - |2l - 1|) s, the smallest channel l - c / 2, and the hue's
      sixth of the circle placing the largest and the middle channel. */
  function FractionsToRgb(f: Fractions): (real, real, real) {
    SectorRgb(6.0 * f.h, f.l - Chroma(f) / 2.0, Chroma(f))
  }

  function Chroma(f: Fractions): real {
    (1.0 - Abs(2.0 * f.l - 1.0)) * f.s
  }

  /** The channels of a colour whose hue is h6 sixths of a turn, whose smallest
      channel is lo and whose largest is lo + c. */
  function SectorRgb(h6: real, lo: real, c: real): (real, real, real) {
    var hi := lo + c;
    if h6 < 1.0 then (hi, lo + c * h6, lo)
    else if h6 < 2.0 then (lo + c * (2.0 - h6), hi, lo)
    else if h6 < 3.0 then (lo, hi, lo + c * (h6 - 2.0))
    else if h6 < 4.0 then (lo, lo + c * (4.0 - h6), hi)
    else if h6 < 5.0 then (lo + c * (h6 - 4.0), lo, hi)
    else (hi, lo, lo + c * (6.0 - h6))
  }

  /** Before rounding, rgbToHsl loses nothing: converting its fractions back
      gives the normalised channels exactly. */
  lemma FractionsRoundTrip(r: Byte, g: Byte, b: Byte)
    ensures FractionsToRgb(HslFractions(r, g, b)) == (Unit(r), Unit(g), Unit(b))
  {
    FractionsOfRoundTrip(Unit(r), Unit(g), Unit(b));
  }

  lemma FractionsOfRoundTrip(r: real, g: real, b: real)
    requires 0.0 <= r <= 1.0 && 0.0 <= g <= 1.0 && 0.0 <= b <= 1.0
    ensures FractionsToRgb(FractionsOf(r, g, b)) == (r, g, b)
  {
    match CaseOf(r, g, b)
    case Gray =>
      var f := FractionsOf(r, g, b);
      assert r == g == b && f == Fractions(0.0, 0.0, r);
      assert Chroma(f) == 0.0;
    case RedMax =>
      RedRoundTrip(r, g, b);
    case GreenMax =>
      GreenRoundTrip(r, g, b);
    case BlueMax =>
      BlueRoundTrip(r, g, b);
  }

  /** SectorRgb, one sixth of the circle at a time. */
  lemma SectorOne(h6: real, lo: real, c: real)
    requires h6 < 1.0
    ensures SectorRgb(h6, lo, c) == (lo + c, lo + c * h6, lo)
  {
  }

  lemma SectorTwo(h6: real, lo: real, c: real)
    requires 1.0 <= h6 < 2.0
    ensures SectorRgb(h6, lo, c) == (lo + c * (2.0 - h6), lo + c, lo)
  {
  }

  lemma SectorThree(h6: real, lo: real, c: real)
    requires 2.0 <= h6 < 3.0
    ensures SectorRgb(h6, lo, c) == (lo, lo + c, lo + c * (h6 - 2.0))
  {
  }

  lemma SectorFour(h6: real, lo: real, c: real)
    requires 3.0 <= h6 < 4.0
    ensures SectorRgb(h6, lo, c) == (lo, lo + c * (4.0 - h6), lo + c)
  {
  }

  lemma SectorFive(h6: real, lo: real, c: real)
    requires 4.0 <= h6 < 5.0
    ensures SectorRgb(h6, lo, c) == (lo + c * (h6 - 4.0), lo, lo + c)
  {
  }

  lemma SectorSix(h6: real, lo: real, c: real)
    requires 5.0 <= h6
    ensures SectorRgb(h6, lo, c) == (lo + c, lo, lo + c * (6.0 - h6))
  {
  }

  /** c * u for u that equals -q, when d * q is known. */
  lemma ProductNeg(c: real, d: real, u: real, q: real)
    requires c == d && u == -q
    ensures c * u == -(d * q)
  {
  }

  lemma ProductSame(c: real, d: real, u: real, q: real)
    requires c == d && u == q
    ensures c * u == d * q
  {
  }

  lemma {:induction false} RedRoundTrip(r: real, g: real, b: real)
    requires 0.0 <= r <= 1.0 && 0.0 <= g <= 1.0 && 0.0 <= b <= 1.0
    requires CaseOf(r, g, b) == RedMax
    ensures FractionsToRgb(FractionsOf(r, g, b)) == (r, g, b)
  {
    var mx, mn := Max3(r, g, b), Min3(r, g, b);
    var f := FractionsOf(r, g, b);
    assert f == Fractions(RedHue(r, g, b, mx - mn), Saturation(mx, mn), (mx + mn) / 2.0);
    ChromaOf(f.h, mx, mn);
    RatioBounds(g - b, mx - mn);
    var q := (g - b) / (mx - mn);
    RedSector(r, g, b, mn, q, Chroma(f), 6.0 * f.h);
  }

  lemma {:induction false} GreenRoundTrip(r: real, g: real, b: real)
    requires 0.0 <= r <= 1.0 && 0.0 <= g <= 1.0 && 0.0 <= b <= 1.0
    requires CaseOf(r, g, b) == GreenMax
    ensures FractionsToRgb(FractionsOf(r, g, b)) == (r, g, b)
  {
    var mx, mn := Max3(r, g, b), Min3(r, g, b);
    var f := FractionsOf(r, g, b);
    assert f == Fractions(GreenHue(r, g, b, mx - mn), Saturation(mx, mn), (mx + mn) / 2.0);
    ChromaOf(f.h, mx, mn);
    RatioBounds(b - r, mx - mn);
    var q := (b - r) / (mx - mn);
    GreenSector(r, g, b, mn, q, Chroma(f), 6.0 * f.h);
  }

  lemma {:induction false} BlueRoundTrip(r: real, g: real, b: real)
    requires 0.0 <= r <= 1.0 && 0.0 <= g <= 1.0 && 0.0 <= b <= 1.0
    requires CaseOf(r, g, b) == BlueMax
    ensures FractionsToRgb(FractionsOf(r, g, b)) == (r, g, b)
  {
    var mx, mn := Max3(r, g, b), Min3(r, g, b);
    var f := FractionsOf(r, g, b);
    assert f == Fractions(BlueHue(r, g, b, mx - mn), Saturation(mx, mn), (mx + mn) / 2.0);
    ChromaOf(f.h, mx, mn);
    RatioBounds(r - g, mx - mn);
    var q := (r - g) / (mx - mn);
    BlueSector(r, g, b, mn, q, Chroma(f), 6.0 * f.h);
  }

  /** The sector arithmetic for each case, on plain reals: c is the chroma,
      h6 six times the hue and q the case's ratio, c * q its numerator. */
  lemma RedSector(r: real, g: real, b: real, mn: real, q: real, c: real, h6: real)
    requires r >= g && r >= b && mn == (if g < b then g else b) && c == r - mn > 0.0
    requires c * q == g - b && -1.0 <= q <= 1.0 && (g < b ==> q < 0.0) && (g >= b ==> q >= 0.0)
    requires h6 == q + (if g < b then 6.0 else 0.0)
    ensures SectorRgb(h6, mn, c) == (r, g, b)
  {
    if g >= b {
      if h6 < 1.0 {
        ProductSame(c, c, h6, q);
        SectorOne(h6, mn, c);
        assert mn + c * h6 == g;
      } else {
        assert g == r by {
          assert c * q == c * 1.0;
        }
        ProductNeg(c, c, 2.0 - h6, -1.0);
        SectorTwo(h6, mn, c);
        assert mn + c * (2.0 - h6) == r;
      }
    } else {
      ProductNeg(c, c, 6.0 - h6, q);
      SectorSix(h6, mn, c);
      assert c * (6.0 - h6) == b - g;
      assert mn + c * (6.0 - h6) == b;
    }
  }

  lemma GreenSector(r: real, g: real, b: real, mn: real, q: real, c: real, h6: real)
    requires g > r && g >= b && mn == (if r < b then r else b) && c == g - mn > 0.0
    requires c * q == b - r && -1.0 <= q <= 1.0 && (b < r ==> q < 0.0) && (b >= r ==> q >= 0.0)
    requires h6 == q + 2.0
    ensures SectorRgb(h6, mn, c) == (r, g, b)
  {
    if b < r {
      ProductNeg(c, c, 2.0 - h6, q);
      SectorTwo(h6, mn, c);
      assert c * (2.0 - h6) == r - b;
      assert mn + c * (2.0 - h6) == r;
    } else if h6 < 3.0 {
      ProductSame(c, c, h6 - 2.0, q);
      SectorThree(h6, mn, c);
      assert mn + c * (h6 - 2.0) == b;
    } else {
      assert b == g by {
        assert c * q == c * 1.0;
      }
      ProductNeg(c, c, 4.0 - h6, -1.0);
      SectorFour(h6, mn, c);
      assert mn + c * (4.0 - h6) == g;
    }
  }

  lemma BlueSector(r: real, g: real, b: real, mn: real, q: real, c: real, h6: real)
    requires b > r && b > g && mn == (if r < g then r else g) && c == b - mn > 0.0
    requires c * q == r - g && -1.0 < q < 1.0 && (r < g ==> q < 0.0) && (r >= g ==> q >= 0.0)
    requires h6 == q + 4.0
    ensures SectorRgb(h6, mn, c) == (r, g, b)
  {
    if r < g {
      ProductNeg(c, c, 4.0 - h6, q);
      SectorFour(h6, mn, c);
      assert c * (4.0 - h6) == g - r;
      assert mn + c * (4.0 - h6) == g;
    } else {
      ProductSame(c, c, h6 - 4.0, q);
      SectorFive(h6, mn, c);
      assert mn + c * (h6 - 4.0) == r;
    }
  }

  /** The chroma formula recovers max - min from the saturation and lightness. */
  lemma ChromaOf(h: real, mx: real, mn: real)
    requires 0.0 <= mn < mx <= 1.0
    ensures Chroma(Fractions(h, Saturation(mx, mn), (mx + mn) / 2.0)) == mx - mn
  {
    var d := mx - mn;
    if (mx + mn) / 2.0 > 0.5 {
      assert (2.0 - mx - mn) * (d / (2.0 - mx - mn)) == d;
    } else {
      assert (mx + mn) * (d / (mx + mn)) == d;
    }
  }

  /** Rounding moves each component by at most half a unit from the exact value. */
  lemma RoundingError(r: Byte, g: Byte, b: Byte)
    ensures var c, f := RgbToHsl(r, g, b), HslFractions(r, g, b);
      && Abs(c.h as real - 360.0 * f.h) <= 0.5
      && Abs(c.s as real - 100.0 * f.s) <= 0.5
      && Abs(c.l as real - 100.0 * f.l) <= 0.5
  {
  }

  /** The rounded triple can lose more than one unit per channel: (3, 0, 0)
      becomes hsl(0, 100%, 1%), and that converts back to a red channel of
      0.02 * 255 = 5.1, two units away from 3. */
  lemma RoundedLosesMore()
    ensures RgbToHsl(3, 0, 0) == Hsl(0, 100, 1)
    ensures FractionsToRgb(Fractions(0.0, 1.0, 0.01)) == (0.02, 0.0, 0.0)
  {
    var f := HslFractions(3, 0, 0);
    assert f == Fractions(0.0, 1.0, 3.0 / 510.0);
    assert Round(f.l * 100.0) == 1;
  }
}
