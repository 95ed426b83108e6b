/** The hexadecimal colour code: rgbToHex and its inner toHex. */
module Hex {
  import opened Numeric

  predicate IsHexDigit(c: char) {
    '0' <= c <= '9' || 'a' <= c <= 'f'
  }

  /** The lower-case digit Number.prototype.toString(16) writes for d. */
  function HexDigit(d: nat): (c: char)
    requires d < 16
    ensures IsHexDigit(c)
    ensures c <= '9' <==> d < 10
  {
    if d < 10 then ('0' as int + d) as char else ('a' as int + d - 10) as char
  }

  function HexDigitValue(c: char): (d: nat)
    requires IsHexDigit(c)
    ensures d < 16 && HexDigit(d) == c
  {
    if c <= '9' then c as int - '0' as int else c as int - 'a' as int + 10
  }

  /** n.toString(16) for a non-negative integer n: its shortest base-16 numeral. */
  function HexString(n: nat): (s: string)
    ensures |s| >= 1 && forall i :: 0 <= i < |s| ==> IsHexDigit(s[i])
  {
    if n < 16 then [HexDigit(n)] else HexString(n / 16) + [HexDigit(n % 16)]
  }

  /** The value of a base-16 numeral, most significant digit first. */
  function HexNumber(s: string): nat
    requires forall i :: 0 <= i < |s| ==> IsHexDigit(s[i])
  {
    if s == [] then 0 else HexNumber(s[..|s| - 1]) * 16 + HexDigitValue(s[|s| - 1])
  }

  /** toHex: the numeral, with a '0' in front when it has a single digit. */
  function ToHex(n: nat): (s: string)
    ensures forall i :: 0 <= i < |s| ==> IsHexDigit(s[i])
    ensures |s| >= 2 && (n < 256 ==> |s| == 2)
    ensures n < 16 ==> s[0] == '0'
  {
    HexStringLength(n);
    var hex := HexString(n);
    if |hex| == 1 then "0" + hex else hex
  }

  /** rgbToHex: '#' and the three padded channels. */
  function RgbToHex(r: Byte, g: Byte, b: Byte): (s: string)
    ensures |s| == 7 && s[0] == '#'
    ensures forall i :: 1 <= i < 7 ==> IsHexDigit(s[i])
  {
    "#" + ToHex(r) + ToHex(g) + ToHex(b)
  }

  /** Reads a code of the form '#rrggbb' (lower-case digits) back into its channels. */
  function ParseHex(s: string): (t: Option<(Byte, Byte, Byte)>)
  {
    if |s| == 7 && s[0] == '#' && forall i :: 1 <= i < 7 ==> IsHexDigit(s[i]) then
      Some((HexDigitValue(s[1]) * 16 + HexDigitValue(s[2]),
            HexDigitValue(s[3]) * 16 + HexDigitValue(s[4]),
            HexDigitValue(s[5]) * 16 + HexDigitValue(s[6])))
    else
      None
  }

  /** toString(16) loses nothing: the numeral's value is n, for every n. */
  lemma {:induction false} HexStringValue(n: nat)
    ensures HexNumber(HexString(n)) == n
  {
    var s := HexString(n);
    if n >= 16 {
      HexStringValue(n / 16);
      assert s[..|s| - 1] == HexString(n / 16);
    }
  }

  /** The numeral has one digit exactly below 16, and at most two below 256. */
  lemma {:induction false} HexStringLength(n: nat)
    ensures |HexString(n)| == 1 <==> n < 16
    ensures n < 256 ==> |HexString(n)| <= 2
    ensures n >= 256 ==> |HexString(n)| >= 3
  {
    if n >= 16 {
      HexStringLength(n / 16);
    }
  }

  /** For a channel value, toHex is exactly two digits: the high nibble then
      the low one, so a value below 16 gets a leading '0' (12 gives "0c"). */
  lemma ToHexOfByte(n: Byte)
    ensures |ToHex(n)| == 2
    ensures ToHex(n)[0] == HexDigit(n / 16) && ToHex(n)[1] == HexDigit(n % 16)
    ensures ToHex(n)[0] == '0' <==> n < 16
  {
    HexStringLength(n);
    if n >= 16 {
      assert HexString(n) == HexString(n / 16) + [HexDigit(n % 16)];
      HexStringLength(n / 16);
    }
  }

  /** Above 255, toHex pads nothing: it is the bare numeral of three or more digits. */
  lemma ToHexWide(n: nat)
    requires n >= 256
    ensures ToHex(n) == HexString(n) && |ToHex(n)| >= 3
  {
    HexStringLength(n);
  }

  /** The padding never changes the value: toHex(n) reads back as n. */
  lemma ToHexValue(n: nat)
    ensures HexNumber(ToHex(n)) == n
  {
    HexStringValue(n);
    var hex := HexString(n);
    if |hex| == 1 {
      var s := "0" + hex;
      assert s[..|s| - 1] == "0";
      assert HexNumber("0") == 0 by {
        assert "0"[..0] == [];
      }
      assert hex[..0] == [];
    }
  }

  /** Each channel's two digits sit in its place in the code, r, g, b in turn. */
  lemma RgbToHexShape(r: Byte, g: Byte, b: Byte)
    ensures RgbToHex(r, g, b)[1..3] == ToHex(r)
    ensures RgbToHex(r, g, b)[3..5] == ToHex(g)
    ensures RgbToHex(r, g, b)[5..7] == ToHex(b)
  {
    ToHexOfByte(r);
    ToHexOfByte(g);
    ToHexOfByte(b);
    var hr, hg, hb := ToHex(r), ToHex(g), ToHex(b);
    var s := RgbToHex(r, g, b);
    assert s == "#" + hr + hg + hb;
    assert s[1..3] == hr by {
      assert s[1] == hr[0] && s[2] == hr[1];
    }
    assert s[3..5] == hg by {
      assert s[3] == hg[0] && s[4] == hg[1];
    }
    assert s[5..7] == hb by {
      assert s[5] == hb[0] && s[6] == hb[1];
    }
  }

  /** Decoding each pair of the code gives back r, g and b exactly. */
  lemma HexRoundTrip(r: Byte, g: Byte, b: Byte)
    ensures ParseHex(RgbToHex(r, g, b)) == Some((r, g, b))
  {
    RgbToHexShape(r, g, b);
    ToHexOfByte(r);
    ToHexOfByte(g);
    ToHexOfByte(b);
  }

  /** Conversely every well-formed lower-case code is the code of the channels
      it decodes to, so rgbToHex is a bijection onto such codes. */
  lemma HexCanonical(s: string, r: Byte, g: Byte, b: Byte)
    requires ParseHex(s) == Some((r, g, b))
    ensures RgbToHex(r, g, b) == s
  {
    RgbToHexShape(r, g, b);
    ToHexOfByte(r);
    ToHexOfByte(g);
    ToHexOfByte(b);
    var t := RgbToHex(r, g, b);
    assert r / 16 == HexDigitValue(s[1]) && r % 16 == HexDigitValue(s[2]);
    assert g / 16 == HexDigitValue(s[3]) && g % 16 == HexDigitValue(s[4]);
    assert b / 16 == HexDigitValue(s[5]) && b % 16 == HexDigitValue(s[6]);
    forall i | 0 <= i < 7
      ensures t[i] == s[i]
    {
    }
  }

  /** Different colours get different codes. */
  lemma RgbToHexInjective(r: Byte, g: Byte, b: Byte, r': Byte, g': Byte, b': Byte)
    requires RgbToHex(r, g, b) == RgbToHex(r', g', b')
    ensures r == r' && g == g' && b == b'
  {
    HexRoundTrip(r, g, b);
    HexRoundTrip(r', g', b');
  }

  /** A colour with channels below 16 gets its padding zeros: (12, 34, 56) is
      "#0c2238"; and pure red is "#ff0000". */
  lemma HexOfSample()
    ensures RgbToHex(12, 34, 56) == "#0c2238"
    ensures RgbToHex(255, 0, 0) == "#ff0000"
  {
    ToHexOfByte(12);
    ToHexOfByte(34);
    ToHexOfByte(56);
    ToHexOfByte(255);
    ToHexOfByte(0);
  }
}
