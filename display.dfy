/** displayImage's sizing: an image larger than 800 by 600 is scaled down by
    one ratio, the smaller of 800 / width and 600 / height, so that it fits
    and keeps its aspect ratio.  The scaling is stated over exact reals; the
    canvas then takes the integer part of each side on assignment. */
module Display {

  const MaxWidth: real := 800.0
  const MaxHeight: real := 600.0

  /** Math.min(800 / w, 600 / h) for an image that exceeds a limit.  Dividing by
      a zero side gives +Infinity in the script, which Math.min never picks. */
  function Ratio(w: nat, h: nat): (k: real)
    requires w as real > MaxWidth || h as real > MaxHeight
    ensures 0.0 < k < 1.0
  {
    if w == 0 then MaxHeight / h as real
    else if h == 0 then MaxWidth / w as real
    else if MaxWidth / w as real <= MaxHeight / h as real then MaxWidth / w as real
    else MaxHeight / h as real
  }

  /** The displayed size (width, height) for an image of w by h pixels. */
  function DisplaySize(w: nat, h: nat): (d: (real, real))
    ensures d.0 <= MaxWidth && d.1 <= MaxHeight
    ensures 0.0 <= d.0 <= w as real && 0.0 <= d.1 <= h as real
    ensures d.0 * h as real == d.1 * w as real
    ensures w as real <= MaxWidth && h as real <= MaxHeight ==> d == (w as real, h as real)
    ensures w as real > MaxWidth || h as real > MaxHeight ==> d.0 == MaxWidth || d.1 == MaxHeight
  {
    if w as real > MaxWidth || h as real > MaxHeight then
      var k := Ratio(w, h);
      FitsBoth(w, h);
      (w as real * k, h as real * k)
    else
      (w as real, h as real)
  }

  lemma FitsBoth(w: nat, h: nat)
    requires w as real > MaxWidth || h as real > MaxHeight
    ensures var k := Ratio(w, h);
      && w as real * k <= MaxWidth && h as real * k <= MaxHeight
      && (w as real * k == MaxWidth || h as real * k == MaxHeight)
      && w as real * k <= w as real && h as real * k <= h as real
  {
    var k := Ratio(w, h);
    var wr, hr := w as real, h as real;
    if w == 0 {
      assert hr * k == MaxHeight;
    } else if h == 0 {
      assert wr * k == MaxWidth;
    } else if MaxWidth / wr <= MaxHeight / hr {
      assert wr * k == MaxWidth;
      assert hr * k <= hr * (MaxHeight / hr);
    } else {
      assert hr * k == MaxHeight;
      assert wr * k <= wr * (MaxWidth / wr);
    }
  }

  /** canvas.width and canvas.height after the assignment: the integer part. */
  function CanvasSize(w: nat, h: nat): (c: (nat, nat))
    ensures c.0 <= 800 && c.1 <= 600 && c.0 <= w && c.1 <= h
  {
    var d := DisplaySize(w, h);
    (d.0.Floor, d.1.Floor)
  }

  /** A very thin image gets a canvas with no rows: 10000 by 1 is drawn at
      800 by 0.08, and the canvas is 800 by 0. */
  lemma ThinImage()
    ensures CanvasSize(10000, 1) == (800, 0)
  {
    assert Ratio(10000, 1) == 0.08;
  }
}
