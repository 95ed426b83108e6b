/** How the script's template literals turn numbers into text, and a reader
    for such text that serves to show that nothing is lost in the rendering. */
module Text {
  import opened Numeric

  predicate IsDigit(c: char) {
    '0' <= c <= '9'
  }

  predicate AllDigits(s: string) {
    forall i :: 0 <= i < |s| ==> IsDigit(s[i])
  }

  function DigitChar(d: nat): (c: char)
    requires d < 10
    ensures IsDigit(c)
  {
    ('0' as int + d) as char
  }

  function DigitValue(c: char): (d: nat)
    requires IsDigit(c)
    ensures d < 10 && DigitChar(d) == c
  {
    c as int - '0' as int
  }

  /** A numeral as `${n}` writes one: digits, with no leading zero except in "0". */
  predicate Canonical(s: string) {
    |s| >= 1 && AllDigits(s) && (s[0] == '0' ==> s == "0")
  }

  /** The shortest decimal numeral of n, as `${n}` writes a non-negative
      integral Number below 10^21 (from there on JavaScript writes an exponent;
      every number shown here is far below that). */
  function Decimal(n: nat): (s: string)
    ensures Canonical(s)
    ensures s == "0" <==> n == 0
  {
    if n < 10 then [DigitChar(n)] else Decimal(n / 10) + [DigitChar(n % 10)]
  }

  /** The value of a decimal numeral, most significant digit first. */
  function NumeralValue(s: string): nat
    requires AllDigits(s)
  {
    if s == [] then 0 else NumeralValue(s[..|s| - 1]) * 10 + DigitValue(s[|s| - 1])
  }

  /** `${n}` for an integral Number n of magnitude below 10^21: a minus sign
      exactly for a negative n, then the canonical numeral of its magnitude. */
  function IntText(n: int): (s: string)
    ensures |s| >= 1 && (s[0] == '-' <==> n < 0)
    ensures n < 0 ==> Canonical(s[1..]) && s[1..] != "0"
    ensures n >= 0 ==> Canonical(s)
  {
    if n < 0 then
      var m := Decimal(-n);
      assert ("-" + m)[1..] == m;
      "-" + m
    else Decimal(n)
  }

  /** The numerals Decimal writes read back as the number written. */
  lemma {:induction false} DecimalValue(n: nat)
    ensures NumeralValue(Decimal(n)) == n
  {
    var s := Decimal(n);
    if n >= 10 {
      DecimalValue(n / 10);
      assert s[..|s| - 1] == Decimal(n / 10);
    }
  }

  /** The number of digits at the front of s. */
  function DigitRun(s: string): (k: nat)
    ensures k <= |s| && AllDigits(s[..k])
    ensures k < |s| ==> !IsDigit(s[k])
  {
    if s == [] || !IsDigit(s[0]) then 0
    else
      var k := 1 + DigitRun(s[1..]);
      assert s[..k] == [s[0]] + s[1..][..k - 1];
      k
  }

  /** A numeral followed by something that is not a digit is read to its end. */
  lemma {:induction false} DigitRunOfNumeral(ds: string, rest: string)
    requires AllDigits(ds)
    requires rest == [] || !IsDigit(rest[0])
    ensures DigitRun(ds + rest) == |ds|
  {
    if ds != [] {
      assert (ds + rest)[1..] == ds[1..] + rest;
      DigitRunOfNumeral(ds[1..], rest);
    }
  }

  /** Reads the numeral at the front of t, taking every digit there is; only
      a numeral `${n}` writes (no leading zero) is accepted. */
  function ReadNat(t: string): Option<(nat, string)> {
    var k := DigitRun(t);
    if k == 0 || !Canonical(t[..k]) then None
    else Some((NumeralValue(t[..k]), t[k..]))
  }

  /** Reads a decimal integer, with an optional minus sign, off the front of
      s; gives the value and what follows.  "-0" is refused, as `${n}` never
      writes it. */
  function ReadInt(s: string): Option<(int, string)> {
    if |s| > 0 && s[0] == '-' then
      match ReadNat(s[1..])
      case None => None
      case Some((m, rest)) =>
        var v: int := -(m as int);
        if m == 0 then None else Some((v, rest))
    else
      match ReadNat(s)
      case None => None
      case Some((m, rest)) =>
        var v: int := m as int;
        Some((v, rest))
  }

  lemma {:induction false} ReadNatText(m: nat, rest: string)
    requires rest == [] || !IsDigit(rest[0])
    ensures ReadNat(Decimal(m) + rest) == Some((m, rest))
  {
    DecimalValue(m);
    ReadNumeral(Decimal(m), rest);
  }

  lemma {:induction false} ReadIntText(n: int, rest: string)
    requires rest == [] || !IsDigit(rest[0])
    ensures ReadInt(IntText(n) + rest) == Some((n, rest))
  {
    if n < 0 {
      ReadNegativeText(n, rest);
    } else {
      ReadNonNegativeText(n, rest);
    }
  }

  lemma {:induction false} ReadNonNegativeText(n: int, rest: string)
    requires n >= 0 && (rest == [] || !IsDigit(rest[0]))
    ensures ReadInt(IntText(n) + rest) == Some((n, rest))
  {
    var s := IntText(n) + rest;
    assert s == Decimal(n) + rest;
    assert s[0] == Decimal(n)[0] && IsDigit(s[0]);
    ReadNatText(n, rest);
  }

  lemma {:induction false} ReadNegativeText(n: int, rest: string)
    requires n < 0 && (rest == [] || !IsDigit(rest[0]))
    ensures ReadInt(IntText(n) + rest) == Some((n, rest))
  {
    var ds := Decimal(-n);
    assert IntText(n) == "-" + ds;
    SignedSplit(ds, rest);
    ReadNatText(-n, rest);
    ReadMinus("-" + ds + rest, -n, rest);
  }

  /** Past a leading minus sign comes the numeral and what follows it. */
  lemma SignedSplit(ds: string, rest: string)
    ensures ("-" + ds + rest)[0] == '-' && ("-" + ds + rest)[1..] == ds + rest
  {
    assert "-" + ds + rest == "-" + (ds + rest);
  }

  /** A minus sign before a positive numeral reads as the negated number. */
  lemma ReadMinus(s: string, m: nat, rest: string)
    requires |s| > 0 && s[0] == '-' && m > 0
    requires ReadNat(s[1..]) == Some((m, rest))
    ensures ReadInt(s) == Some((-(m as int), rest))
  {
  }

  /** A numeral followed by a non-digit splits into the numeral and the rest. */
  lemma {:induction false} ReadNumeral(ds: string, rest: string)
    requires AllDigits(ds)
    requires rest == [] || !IsDigit(rest[0])
    ensures DigitRun(ds + rest) == |ds|
    ensures (ds + rest)[..|ds|] == ds && (ds + rest)[|ds|..] == rest
  {
    DigitRunOfNumeral(ds, rest);
    assert (ds + rest)[..|ds|] == ds;
    assert (ds + rest)[|ds|..] == rest;
  }

  /** A numeral with no leading zero is Decimal's numeral of its value. */
  lemma {:induction false} DecimalOfNumeral(s: string)
    requires Canonical(s)
    ensures Decimal(NumeralValue(s)) == s
  {
    var n := NumeralValue(s);
    if |s| > 1 {
      var front := s[..|s| - 1];
      assert front[0] == s[0] && |front| > 1 ==> front != "0";
      assert Canonical(front);
      NumeralPositive(front);
      DecimalOfNumeral(front);
      assert n / 10 == NumeralValue(front) && n % 10 == DigitValue(s[|s| - 1]);
      assert s == front + [s[|s| - 1]];
    }
  }

  /** A numeral that does not start with '0' has a positive value. */
  lemma {:induction false} NumeralPositive(s: string)
    requires |s| >= 1 && AllDigits(s) && s[0] != '0'
    ensures NumeralValue(s) >= 1
  {
    if |s| > 1 {
      NumeralPositive(s[..|s| - 1]);
    }
  }

  /** What ReadNat accepts is exactly a numeral Decimal writes, and what follows. */
  lemma {:induction false} ReadNatCanonical(t: string, m: nat, rest: string)
    requires ReadNat(t) == Some((m, rest))
    ensures t == Decimal(m) + rest
  {
    var k := DigitRun(t);
    DecimalOfNumeral(t[..k]);
    assert t == t[..k] + t[k..];
  }

  /** What ReadInt accepts is exactly an integer's text and what follows it. */
  lemma {:induction false} ReadIntCanonical(s: string, v: int, rest: string)
    requires ReadInt(s) == Some((v, rest))
    ensures s == IntText(v) + rest
  {
    if |s| > 0 && s[0] == '-' {
      ReadMinusInverse(s, v, rest);
      var ds := Decimal(-v);
      ReadNatCanonical(s[1..], -v, rest);
      assert IntText(v) == "-" + ds;
      assert s == "-" + s[1..];
      assert s == "-" + (ds + rest);
    } else {
      assert ReadNat(s) == Some((v, rest));
      ReadNatCanonical(s, v, rest);
      assert IntText(v) == Decimal(v);
    }
  }

  /** What follows an accepted minus sign is a positive numeral. */
  lemma ReadMinusInverse(s: string, v: int, rest: string)
    requires |s| > 0 && s[0] == '-' && ReadInt(s) == Some((v, rest))
    ensures v < 0 && ReadNat(s[1..]) == Some((-v, rest))
  {
  }

  /** A piece of a template literal: fixed text, an integer interpolated with
      `${...}`, or the two decimals after the point in toFixed(2) (the last
      two digits of its value). */
  datatype Piece = Lit(text: string) | Int(value: int) | Cents(cents: nat)

  /** A template literal, piece by piece. */
  datatype Template = End | Then(piece: Piece, rest: Template)

  /** What a reader expects at each piece, without the values. */
  datatype Slot = LitSlot(text: string) | IntSlot | CentsSlot

  datatype Form = Done | Expect(slot: Slot, next: Form)

  /** The text of one piece: an interpolated integer reads back as itself,
      and a two-decimal part below 100 is two digits whose value it is. */
  function RenderPiece(p: Piece): (s: string)
    ensures p.Int? ==> ReadInt(s) == Some((p.value, ""))
    ensures p.Cents? && p.cents < 100 ==> |s| == 2 && AllDigits(s) && NumeralValue(s) == p.cents
  {
    match p
    case Lit(t) => t
    case Int(v) =>
      ReadIntText(v, "");
      assert IntText(v) + "" == IntText(v);
      IntText(v)
    case Cents(c) =>
      var s := [DigitChar(c / 10 % 10), DigitChar(c % 10)];
      assert s[..|s| - 1] == [s[0]] && [s[0]][..0] == [];
      assert NumeralValue([s[0]]) == DigitValue(s[0]);
      assert NumeralValue(s) == DigitValue(s[0]) * 10 + DigitValue(s[1]);
      s
  }

  /** A template's text; every interpolated value takes at least one
      character of it. */
  function Render(t: Template): (s: string)
    ensures |s| >= |Values(t)|
  {
    match t
    case End => ""
    case Then(p, rest) => RenderPiece(p) + Render(rest)
  }

  function SlotOf(p: Piece): Slot {
    match p
    case Lit(t) => LitSlot(t)
    case Int(_) => IntSlot
    case Cents(_) => CentsSlot
  }

  function FormOf(t: Template): Form {
    match t
    case End => Done
    case Then(p, rest) => Expect(SlotOf(p), FormOf(rest))
  }

  /** The interpolated values, in order. */
  function Values(t: Template): seq<int> {
    match t
    case End => []
    case Then(Lit(_), rest) => Values(rest)
    case Then(Int(v), rest) => [v] + Values(rest)
    case Then(Cents(c), rest) => [c] + Values(rest)
  }

  /** Text that does not start with a digit. */
  predicate StartsOffDigits(t: Template) {
    match t
    case End => true
    case Then(p, _) => p.Lit? && |p.text| > 0 && !IsDigit(p.text[0])
  }

  /** A template a reader can take apart: two-decimal parts are below 100, and
      every interpolated integer is followed by the end or by fixed text that
      starts with something other than a digit. */
  predicate Readable(t: Template) {
    match t
    case End => true
    case Then(p, rest) =>
      && (p.Cents? ==> p.cents < 100)
      && (p.Int? ==> StartsOffDigits(rest))
      && Readable(rest)
  }

  /** Reads s against a form: fixed text must match exactly, an integer takes
      every digit there is, a two-decimal part takes two digits. */
  function Parse(form: Form, s: string): Option<seq<int>> {
    match form
    case Done => if s == [] then Some([]) else None
    case Expect(LitSlot(t), next) =>
      if t <= s then Parse(next, s[|t|..]) else None
    case Expect(IntSlot, next) =>
      (match ReadInt(s)
       case None => None
       case Some((v, rest)) =>
         match Parse(next, rest)
         case None => None
         case Some(vs) => Some([v] + vs))
    case Expect(CentsSlot, next) =>
      if |s| >= 2 && IsDigit(s[0]) && IsDigit(s[1]) then
        match Parse(next, s[2..])
        case None => None
        case Some(vs) => Some([DigitValue(s[0]) * 10 + DigitValue(s[1])] + vs)
      else
        None
  }

  /** Rendering loses nothing: reading a readable template's text against its
      form gives back exactly the values interpolated into it. */
  lemma {:induction false} ParseRender(t: Template)
    requires Readable(t)
    ensures Parse(FormOf(t), Render(t)) == Some(Values(t))
  {
    match t
    case End =>
    case Then(p, tail) =>
      ParseRender(tail);
      var rest := Render(tail);
      match p
      case Lit(text) =>
        ParseLitStep(text, FormOf(tail), rest);
      case Int(v) =>
        assert rest == [] || !IsDigit(rest[0]) by {
          if tail.Then? {
            assert rest == tail.piece.text + Render(tail.rest);
          }
        }
        ParseIntStep(v, FormOf(tail), rest);
      case Cents(c) =>
        ParseCentsStep(c, FormOf(tail), rest);
  }

  /** Conversely the reader accepts no other text: whatever reads against a
      template's form as that template's values is the template's own text. */
  lemma {:induction false} RenderOnly(t: Template, s: string)
    requires Parse(FormOf(t), s) == Some(Values(t))
    ensures s == Render(t)
  {
    match t
    case End =>
    case Then(p, tail) =>
      match p
      case Lit(text) =>
        var rest := LitOnly(text, FormOf(tail), s);
        RenderOnly(tail, rest);
      case Int(v) =>
        var rest := IntOnly(FormOf(tail), s, v, Values(tail));
        RenderOnly(tail, rest);
      case Cents(c) =>
        var rest := CentsOnly(FormOf(tail), s, c, Values(tail));
        RenderOnly(tail, rest);
  }

  lemma LitOnly(text: string, next: Form, s: string) returns (rest: string)
    requires Parse(Expect(LitSlot(text), next), s).Some?
    ensures s == text + rest && Parse(Expect(LitSlot(text), next), s) == Parse(next, rest)
  {
    rest := s[|text|..];
    assert s == text + rest;
  }

  lemma IntOnly(next: Form, s: string, v: int, vs: seq<int>) returns (rest: string)
    requires Parse(Expect(IntSlot, next), s) == Some([v] + vs)
    ensures s == IntText(v) + rest && Parse(next, rest) == Some(vs)
  {
    var (v', rest') := ReadInt(s).value;
    rest := rest';
    var vs' := Parse(next, rest).value;
    assert [v'] + vs' == [v] + vs;
    assert ([v'] + vs')[0] == v' && ([v'] + vs')[1..] == vs';
    assert ([v] + vs)[0] == v && ([v] + vs)[1..] == vs;
    ReadIntCanonical(s, v, rest);
  }

  lemma CentsOnly(next: Form, s: string, c: nat, vs: seq<int>) returns (rest: string)
    requires Parse(Expect(CentsSlot, next), s) == Some([c] + vs)
    ensures s == RenderPiece(Cents(c)) + rest && Parse(next, rest) == Some(vs)
  {
    rest := s[2..];
    var d := DigitValue(s[0]) * 10 + DigitValue(s[1]);
    var vs' := Parse(next, rest).value;
    assert [d] + vs' == [c] + vs;
    assert ([d] + vs')[0] == d && ([d] + vs')[1..] == vs';
    assert ([c] + vs)[0] == c && ([c] + vs)[1..] == vs;
    assert c / 10 % 10 == DigitValue(s[0]) && c % 10 == DigitValue(s[1]);
    assert s == [s[0], s[1]] + rest;
  }

  lemma ParseLitStep(t: string, next: Form, rest: string)
    ensures Parse(Expect(LitSlot(t), next), t + rest) == Parse(next, rest)
  {
    assert (t + rest)[|t|..] == rest;
  }

  lemma ParseIntStep(v: int, next: Form, rest: string)
    requires rest == [] || !IsDigit(rest[0])
    ensures Parse(Expect(IntSlot, next), IntText(v) + rest) ==
            match Parse(next, rest)
            case None => None
            case Some(vs) => Some([v] + vs)
  {
    ReadIntText(v, rest);
  }

  lemma ParseCentsStep(c: nat, next: Form, rest: string)
    requires c < 100
    ensures Parse(Expect(CentsSlot, next), RenderPiece(Cents(c)) + rest) ==
            match Parse(next, rest)
            case None => None
            case Some(vs) => Some([c] + vs)
  {
    var s := RenderPiece(Cents(c)) + rest;
    assert s[2..] == rest;
    assert s[0] == DigitChar(c / 10) && s[1] == DigitChar(c % 10);
  }

  /** Two readable templates of one form with the same text have the same values. */
  lemma RenderInjective(t: Template, u: Template)
    requires Readable(t) && Readable(u)
    requires FormOf(t) == FormOf(u) && Render(t) == Render(u)
    ensures Values(t) == Values(u)
  {
    ParseRender(t);
    ParseRender(u);
  }
}
