/**
 * The number parsers of the fourth nom lesson: integers converted with
 * `from_str`, signed digits, the text of a floating-point literal, and that
 * text converted to a number.
 */
module Numbers {
  import opened Text
  import opened Nom
  import NomError

  // ---------------------------------------------------------------------------
  // Integers

  /** `int8`: the digits at the front, converted to `i8`; the conversion may fail inside a success. */
  function Int8(): Parser<IntResult> { Map(Digit(), (d: string) => ParseInt(d, I8Min, I8Max)) }

  /** `int32`: the same digits converted to `i32`. */
  function Int32(): Parser<IntResult> { Map(Digit(), (d: string) => ParseInt(d, I32Min, I32Max)) }

  /**
   * The parse and the conversion fail separately: the parse succeeds exactly when the
   * input starts with a digit and then consumes all the leading digits; the value is
   * their number when it fits in `i8` and an overflow error otherwise.
   */
  lemma Int8Spec(s: string)
    ensures Int8()(s).Done? <==> s != [] && IsDigit(s[0])
    ensures s != [] && !IsDigit(s[0]) ==> Int8()(s) == Error(NomError.Digit)
    ensures Int8()(s).Done? ==>
      var Done(r, v) := Int8()(s);
      |r| < |s| &&
      var d := s[..|s| - |r|];
      AllDigits(d) && d + r == s && EndsDigits(r) &&
      v == (if DigitsValue(d) <= I8Max then IntOk(DigitsValue(d)) else IntErr(Overflow))
  {
    RunSpec(IsDigit, NomError.Digit, s);
    if s != [] && IsDigit(s[0]) {
      var Done(r, d) := Digit()(s);
      assert s[..|s| - |r|] == d;
      ParseDigits(d, I8Min, I8Max);
    }
  }

  lemma Int8Examples()
    ensures Int8()("120") == Done("", IntOk(120))
    ensures Int8()("1200") == Done("", IntErr(Overflow))
    ensures Int8()("x120") == Error(NomError.Digit)
  {
    Int8Spec("120");
    assert "120"[..3] == "120";
    assert DigitsValue("120") == 120 by {
      assert "120"[..2] == "12" && "12"[..1] == "1" && "1"[..0] == "";
    }
    Int8Spec("1200");
    assert "1200"[..4] == "1200";
    assert DigitsValue("1200") == 1200 by {
      assert "1200"[..3] == "120" && "120"[..2] == "12" && "12"[..1] == "1" && "1"[..0] == "";
    }
    Int8Spec("x120");
  }

  lemma Int32Example()
    ensures Int32()("1202") == Done("", IntOk(1202))
  {
    assert "1202" == "1202" + "";
    RunOver(IsDigit, NomError.Digit, "1202", "");
    ParseDigits("1202", I32Min, I32Max);
  }

  // ---------------------------------------------------------------------------
  // Signed digits and their text

  /** An optional '+' or '-'. */
  function Sign(): Parser<Option<string>> { Opt(Alt(Tag("+"), Tag("-"))) }

  /** `signed_digits`: the optional sign and the digits, as a pair. */
  function SignedDigits(): Parser<(Option<string>, string)> { Pair(Sign(), Digit()) }

  lemma ConsumesSignedDigits()
    ensures Consumes(SignedDigits())
  {
    ConsumesTag("+");
    ConsumesTag("-");
    ConsumesAlt(Tag("+"), Tag("-"));
    ConsumesOpt(Alt(Tag("+"), Tag("-")));
    AdvancesRun(IsDigit, NomError.Digit);
    ConsumesPair(Sign(), Digit());
  }

  /** `maybe_signed_digits`: the text `signed_digits` consumed. */
  function MaybeSignedDigits(): Parser<string> {
    ConsumesSignedDigits();
    Recognize(SignedDigits())
  }

  /** The text of an optionally signed, non-empty run of digits. */
  predicate SignedDigitsText(t: string) {
    t != [] &&
    if t[0] == '+' || t[0] == '-' then |t| >= 2 && AllDigits(t[1..]) else AllDigits(t)
  }

  /** The value of such text. */
  function SignedValue(t: string): int
    requires SignedDigitsText(t)
  {
    if t[0] == '-' then -(DigitsValue(t[1..]) as int)
    else if t[0] == '+' then DigitsValue(t[1..])
    else DigitsValue(t)
  }

  /** The sign as `signed_digits` reports it. */
  function SignOf(t: string): Option<string>
    requires t != []
  {
    if t[0] == '+' || t[0] == '-' then Some([t[0]]) else None
  }

  /** The digits after the sign. */
  function Unsigned(t: string): string
    requires t != []
  {
    if t[0] == '+' || t[0] == '-' then t[1..] else t
  }

  /** A character that cannot continue a run of digits. */
  predicate EndsDigits(r: string) { r == [] || !IsDigit(r[0]) }

  /** The sign of signed digits is read off their first character. */
  lemma SignOver(t: string, r: string)
    requires SignedDigitsText(t)
    ensures Sign()(t + r) == Done(Unsigned(t) + r, SignOf(t))
  {
    var s := t + r;
    if t[0] == '+' || t[0] == '-' {
      assert s == [t[0]] + (t[1..] + r);
      TagPrefix([t[0]], t[1..] + r);
    } else {
      TagSpec("+", s);
      TagSpec("-", s);
      assert s[..1][0] == t[0];
      OptSpec(Alt(Tag("+"), Tag("-")), s);
    }
  }

  /** Signed digits followed by something else are read as the sign and all of the digits. */
  lemma SignedDigitsOver(t: string, r: string)
    requires SignedDigitsText(t) && EndsDigits(r)
    ensures SignedDigits()(t + r) == Done(r, (SignOf(t), Unsigned(t)))
    ensures MaybeSignedDigits()(t + r) == Done(r, t)
  {
    SignOver(t, r);
    RunOver(IsDigit, NomError.Digit, Unsigned(t), r);
    PairDone(Sign(), Digit(), t + r);
    ConsumesSignedDigits();
    RecognizeDone(SignedDigits(), t + r);
    assert (t + r)[..|t + r| - |r|] == t;
  }

  /** A sign that was read is the first character; without one nothing is consumed. */
  lemma SignRead(s: string)
    requires Sign()(s).Done?
    ensures Sign()(s).value.Some? ==>
      s != [] && (s[0] == '+' || s[0] == '-') && Sign()(s).rest == s[1..] && Sign()(s).value.value == [s[0]]
    ensures Sign()(s).value.None? ==> Sign()(s).rest == s
  {
    var g := Alt(Tag("+"), Tag("-"));
    OptSpec(g, s);
    if g(s).Done? {
      AltSpec(Tag("+"), Tag("-"), s);
      TagSpec("+", s);
      TagSpec("-", s);
    }
  }

  /** What `signed_digits` reads: the optional sign character, then the digits up to a non-digit. */
  lemma SignedDigitsRead(s: string)
    requires SignedDigits()(s).Done?
    ensures var Done(r, (sign, d)) := SignedDigits()(s);
      d != [] && AllDigits(d) && EndsDigits(r) &&
      (sign.Some? ==> s != [] && (s[0] == '+' || s[0] == '-') && s == [s[0]] + (d + r)) &&
      (sign.None? ==> s == d + r)
  {
    PairParts(Sign(), Digit(), s);
    var Done(s', sign) := Sign()(s);
    SignRead(s);
    RunSpec(IsDigit, NomError.Digit, s');
    if sign.Some? {
      assert s == [s[0]] + s';
    }
  }

  /** The text in front of `r` is signed digits when `s` is an optional sign, digits, then `r`. */
  lemma SignedTextOf(s: string, signed: bool, d: string, r: string, t: string)
    requires d != [] && AllDigits(d) && t + r == s
    requires signed ==> s != [] && (s[0] == '+' || s[0] == '-') && s == [s[0]] + (d + r)
    requires !signed ==> s == d + r
    ensures SignedDigitsText(t)
  {
    if signed {
      var u := [s[0]] + d;
      assert t + r == u + r;
      assert |t| == |u|;
      assert t == (t + r)[..|t|] == (u + r)[..|u|] == u;
      assert t[1..] == d;
    } else {
      assert |t| == |d|;
      assert t == (t + r)[..|t|] == (d + r)[..|d|] == d;
    }
  }

  /** Whatever `maybe_signed_digits` accepts is signed digits, and nothing after it continues them. */
  lemma MaybeSignedDigitsShape(s: string)
    ensures MaybeSignedDigits()(s).Done? ==>
      var Done(r, t) := MaybeSignedDigits()(s);
      SignedDigitsText(t) && t + r == s && EndsDigits(r)
  {
    ConsumesSignedDigits();
    RecognizeSpec(SignedDigits(), s);
    assert MaybeSignedDigits() == Recognize(SignedDigits());
    if SignedDigits()(s).Done? {
      SignedDigitsRead(s);
      var Done(r, (sign, d)) := SignedDigits()(s);
      SignedTextOf(s, sign.Some?, d, r, MaybeSignedDigits()(s).value);
    }
  }

  lemma SignedDigitsExamples()
    ensures SignedDigits()("4") == Done("", (None, "4"))
    ensures SignedDigits()("+12") == Done("", (Some("+"), "12"))
    ensures MaybeSignedDigits()("+12") == Done("", "+12")
  {
    assert "4" == "4" + "";
    SignedDigitsOver("4", "");
    assert "+12" == "+12" + "";
    assert "+12"[1..] == "12";
    SignedDigitsOver("+12", "");
  }

  // ---------------------------------------------------------------------------
  // Floating-point text

  /** The optional fraction: a '.' and digits; a lone '.' at the end counts as no fraction. */
  function Fraction(): Parser<Option<(string, string)>> { Opt(Complete(Pair(Tag("."), Digit()))) }

  /** The optional exponent: 'e' or 'E' and signed digits. */
  function Exponent(): Parser<Option<(string, string)>> {
    Opt(Complete(Pair(Alt(Tag("e"), Tag("E")), MaybeSignedDigits())))
  }

  function FloatParts(): Parser<(string, Option<(string, string)>, Option<(string, string)>)> {
    Tuple3(MaybeSignedDigits(), Fraction(), Exponent())
  }

  lemma ConsumesFloatParts()
    ensures Consumes(FloatParts())
  {
    ConsumesSignedDigits();
    ConsumesRecognize(SignedDigits());
    ConsumesTag(".");
    AdvancesRun(IsDigit, NomError.Digit);
    ConsumesPair(Tag("."), Digit());
    ConsumesComplete(Pair(Tag("."), Digit()));
    ConsumesOpt(Complete(Pair(Tag("."), Digit())));
    ConsumesTag("e");
    ConsumesTag("E");
    ConsumesAlt(Tag("e"), Tag("E"));
    ConsumesPair(Alt(Tag("e"), Tag("E")), MaybeSignedDigits());
    ConsumesComplete(Pair(Alt(Tag("e"), Tag("E")), MaybeSignedDigits()));
    ConsumesOpt(Complete(Pair(Alt(Tag("e"), Tag("E")), MaybeSignedDigits())));
    ConsumesTuple3(MaybeSignedDigits(), Fraction(), Exponent());
  }

  /** `floating_point`: the text of signed digits, an optional fraction and an optional exponent. */
  function FloatingPoint(): Parser<string> {
    ConsumesFloatParts();
    Recognize(FloatParts())
  }

  /** The text of a fraction: empty, or '.' followed by digits. */
  predicate FractionText(f: string) { f == [] || (|f| >= 2 && f[0] == '.' && AllDigits(f[1..])) }

  /** The text of an exponent: empty, or 'e'/'E' followed by signed digits. */
  predicate ExponentText(x: string) { x == [] || (|x| >= 2 && (x[0] == 'e' || x[0] == 'E') && SignedDigitsText(x[1..])) }

  /** Number text: signed digits, a fraction and an exponent. */
  predicate NumberText(t: string, f: string, x: string) {
    SignedDigitsText(t) && FractionText(f) && ExponentText(x)
  }

  /** A character that cannot continue a number: not a digit, '.', 'e' or 'E'. */
  predicate EndsNumber(r: string) { r == [] || !(IsDigit(r[0]) || r[0] == '.' || r[0] == 'e' || r[0] == 'E') }

  /** What follows each part of number text cannot continue that part. */
  lemma PartsEnd(f: string, x: string, r: string)
    requires FractionText(f) && ExponentText(x) && EndsNumber(r)
    ensures EndsDigits(x + r) && (x + r == [] || (x + r)[0] != '.')
    ensures EndsDigits(f + (x + r))
  {
    if x != [] { assert (x + r)[0] == x[0]; }
    if f != [] { assert (f + (x + r))[0] == f[0]; }
    else { assert f + (x + r) == x + r; }
  }

  /** The parts of number text and what follows, regrouped. */
  lemma Regroup(t: string, f: string, x: string, r: string)
    ensures t + (f + (x + r)) == (t + (f + x)) + r
    ensures var s := t + (f + (x + r)); |r| <= |s| && s[..|s| - |r|] == t + (f + x)
  {
    var s := t + (f + (x + r));
    assert s == (t + (f + x)) + r;
    assert s[..|s| - |r|] == t + (f + x);
  }

  /** The value `floating_point`'s fraction part reports for a fraction text. */
  function FractionValue(f: string): Option<(string, string)>
    requires FractionText(f)
  {
    if f == [] then None else Some((".", f[1..]))
  }

  /** The value `floating_point`'s exponent part reports for an exponent text. */
  function ExponentValue(x: string): Option<(string, string)>
    requires ExponentText(x)
  {
    if x == [] then None else Some(([x[0]], x[1..]))
  }

  lemma FractionOver(f: string, r: string)
    requires FractionText(f) && (r == [] || r[0] != '.') && EndsDigits(r)
    ensures Fraction()(f + r) == Done(r, FractionValue(f))
  {
    var p := Pair(Tag("."), Digit());
    if f == [] {
      assert f + r == r;
      TagSpec(".", r);
      assert r != [] ==> r[..1][0] == r[0];
      assert !p(r).Done?;
      OptCompleteSucceeds(p, r);
    } else {
      assert f + r == "." + (f[1..] + r);
      TagPrefix(".", f[1..] + r);
      RunOver(IsDigit, NomError.Digit, f[1..], r);
      PairDone(Tag("."), Digit(), f + r);
      OptCompleteSucceeds(p, f + r);
    }
  }

  lemma ExponentOver(x: string, r: string)
    requires ExponentText(x) && (r == [] || (r[0] != 'e' && r[0] != 'E')) && EndsDigits(r)
    ensures Exponent()(x + r) == Done(r, ExponentValue(x))
  {
    var p := Pair(Alt(Tag("e"), Tag("E")), MaybeSignedDigits());
    if x == [] {
      assert x + r == r;
      TagSpec("e", r);
      TagSpec("E", r);
      assert r != [] ==> r[..1][0] == r[0];
      assert !Alt(Tag("e"), Tag("E"))(r).Done?;
      assert !p(r).Done?;
      OptCompleteSucceeds(p, r);
    } else {
      assert x + r == [x[0]] + (x[1..] + r);
      TagPrefix([x[0]], x[1..] + r);
      TagSpec("e", x + r);
      TagSpec("E", x + r);
      assert Alt(Tag("e"), Tag("E"))(x + r) == Done(x[1..] + r, [x[0]]);
      SignedDigitsOver(x[1..], r);
      PairDone(Alt(Tag("e"), Tag("E")), MaybeSignedDigits(), x + r);
      OptCompleteSucceeds(p, x + r);
    }
  }

  /** The optional fraction and exponent after the digits. */
  function FloatTail(): Parser<(Option<(string, string)>, Option<(string, string)>)> {
    Pair(Fraction(), Exponent())
  }

  lemma FloatTailOver(f: string, x: string, r: string)
    requires FractionText(f) && ExponentText(x) && EndsNumber(r)
    ensures FloatTail()(f + (x + r)) == Done(r, (FractionValue(f), ExponentValue(x)))
  {
    PartsEnd(f, x, r);
    FractionOver(f, x + r);
    ExponentOver(x, r);
    PairDone(Fraction(), Exponent(), f + (x + r));
  }

  lemma FloatPartsOver(t: string, f: string, x: string, r: string)
    requires NumberText(t, f, x) && EndsNumber(r)
    ensures FloatParts()(t + (f + (x + r))) == Done(r, (t, FractionValue(f), ExponentValue(x)))
  {
    PartsEnd(f, x, r);
    SignedDigitsOver(t, f + (x + r));
    FloatTailOver(f, x, r);
    PairDone(MaybeSignedDigits(), FloatTail(), t + (f + (x + r)));
  }

  /** Number text followed by something that cannot continue it is recognised exactly. */
  lemma FloatingPointOver(t: string, f: string, x: string, r: string)
    requires NumberText(t, f, x) && EndsNumber(r)
    ensures FloatingPoint()(t + (f + (x + r))) == Done(r, t + (f + x))
  {
    FloatPartsOver(t, f, x, r);
    Regroup(t, f, x, r);
    ConsumesFloatParts();
    RecognizeDone(FloatParts(), t + (f + (x + r)));
  }

  /** What `floating_point` recognises is number text. */
  lemma FloatingPointShape(s: string)
    ensures FloatingPoint()(s).Done? ==>
      var Done(r, n) := FloatingPoint()(s);
      n + r == s && exists t, f, x :: n == t + (f + x) && NumberText(t, f, x)
  {
    ConsumesFloatParts();
    RecognizeSpec(FloatParts(), s);
    if FloatParts()(s).Done? {
      var Done(r, n) := FloatingPoint()(s);
      var t, f, x := FloatPartsShape(s);
      Regroup(t, f, x, r);
      assert n == t + (f + x);
    }
  }

  /** A successful `floating_point` consumed number text. */
  lemma FloatPartsShape(s: string) returns (t: string, f: string, x: string)
    requires FloatParts()(s).Done?
    ensures NumberText(t, f, x) && s == t + (f + (x + FloatParts()(s).rest))
  {
    var r := FloatParts()(s).rest;
    Tuple3Parts(MaybeSignedDigits(), Fraction(), Exponent(), s);
    MaybeSignedDigitsShape(s);
    var r1 := MaybeSignedDigits()(s).rest;
    t := MaybeSignedDigits()(s).value;
    assert FloatTail()(r1).Done? && FloatTail()(r1).rest == r;
    var r2;
    f, r2 := FractionShape(r1);
    x := ExponentShape(r2);
    assert Exponent()(r2).rest == r;
  }

  /** A '.' followed by digits is fraction text. */
  lemma FractionTextOf(s: string, d: string, r: string)
    requires s != [] && s[0] == '.' && s[1..] == d + r && d != [] && AllDigits(d)
    ensures FractionText("." + d) && s == ("." + d) + r
  {
    assert ("." + d)[1..] == d;
    assert s == [s[0]] + s[1..];
  }

  lemma FractionShape(s: string) returns (f: string, r: string)
    ensures Fraction()(s).Done? && Fraction()(s).rest == r && FractionText(f) && s == f + r
  {
    var p := Pair(Tag("."), Digit());
    OptCompleteSucceeds(p, s);
    if p(s).Done? {
      PairParts(Tag("."), Digit(), s);
      TagSpec(".", s);
      assert Tag(".")(s).rest == s[1..];
      RunSpec(IsDigit, NomError.Digit, s[1..]);
      var Done(r', d) := Digit()(s[1..]);
      FractionTextOf(s, d, r');
      f, r := "." + d, r';
    } else {
      f, r := [], s;
    }
  }

  /** The 'e' or 'E' that starts an exponent is one character. */
  lemma ExponentMark(s: string)
    requires Alt(Tag("e"), Tag("E"))(s).Done?
    ensures s != [] && (s[0] == 'e' || s[0] == 'E') && Alt(Tag("e"), Tag("E"))(s).rest == s[1..]
  {
    AltSpec(Tag("e"), Tag("E"), s);
    TagSpec("e", s);
    TagSpec("E", s);
  }

  /** An exponent mark followed by signed digits is exponent text. */
  lemma ExponentTextOf(s: string, d: string, r: string)
    requires s != [] && (s[0] == 'e' || s[0] == 'E') && s[1..] == d + r && SignedDigitsText(d)
    ensures ExponentText([s[0]] + d) && s == ([s[0]] + d) + r
  {
    assert ([s[0]] + d)[1..] == d;
    assert s == [s[0]] + s[1..];
  }

  /** The exponent `floating_point` takes, as text. */
  lemma ExponentShape(s: string) returns (x: string)
    ensures Exponent()(s).Done? && ExponentText(x) && s == x + Exponent()(s).rest
  {
    var mark := Alt(Tag("e"), Tag("E"));
    var p := Pair(mark, MaybeSignedDigits());
    OptCompleteSucceeds(p, s);
    if p(s).Done? {
      PairParts(mark, MaybeSignedDigits(), s);
      ExponentMark(s);
      MaybeSignedDigitsShape(s[1..]);
      var Done(r', d) := MaybeSignedDigits()(s[1..]);
      ExponentTextOf(s, d, r');
      x := [s[0]] + d;
    } else {
      x := [];
    }
  }

  /** Whole number texts are recognised entirely. */
  lemma FloatingPointWhole(t: string, f: string, x: string)
    requires NumberText(t, f, x)
    ensures FloatingPoint()(t + (f + x)) == Done("", t + (f + x))
  {
    assert x + "" == x;
    FloatingPointOver(t, f, x, "");
  }

  lemma FloatingPointSigned()
    ensures FloatingPoint()("+2343") == Done("", "+2343")
    ensures FloatingPoint()("-2343") == Done("", "-2343")
    ensures FloatingPoint()("2343") == Done("", "2343")
  {
    assert "+2343"[1..] == "2343" && "-2343"[1..] == "2343";
    assert "+2343" + ("" + "") == "+2343";
    assert "-2343" + ("" + "") == "-2343";
    assert "2343" + ("" + "") == "2343";
    FloatingPointWhole("+2343", "", "");
    FloatingPointWhole("-2343", "", "");
    FloatingPointWhole("2343", "", "");
  }

  lemma FloatingPointFraction()
    ensures FloatingPoint()("2343.23") == Done("", "2343.23")
  {
    assert ".23"[1..] == "23";
    assert "2343" + (".23" + "") == "2343.23";
    FloatingPointWhole("2343", ".23", "");
  }

  /** The pieces of the two exponent examples. */
  lemma ExponentPieces()
    ensures NumberText("2", "", "e20") && "2" + ("" + "e20") == "2e20"
    ensures NumberText("2", ".0", "e-6") && "2" + (".0" + "e-6") == "2.0e-6"
  {
    assert "e20"[1..] == "20" && ".0"[1..] == "0" && "e-6"[1..] == "-6" && "-6"[1..] == "6";
  }

  lemma FloatingPointExponent()
    ensures FloatingPoint()("2e20") == Done("", "2e20")
    ensures FloatingPoint()("2.0e-6") == Done("", "2.0e-6")
  {
    ExponentPieces();
    FloatingPointWhole("2", "", "e20");
    FloatingPointWhole("2", ".0", "e-6");
  }

  // ---------------------------------------------------------------------------
  // Converting the text

  /** A decimal number: sign, all its digits, how many of them follow the point, and the exponent. */
  datatype Decimal = Decimal(negative: bool, digits: string, fractionLength: nat, exponent: int)

  /** 10 to an integer power, as a real. */
  function Scale(e: int): (r: real)
    ensures r > 0.0
    ensures e >= 0 ==> r == Pow10(e) as real
    ensures e < 0 ==> r * Pow10(-e) as real == 1.0
  {
    if e >= 0 then Pow10(e) as real else 1.0 / Pow10(-e) as real
  }

  /** Raising the exponent by one multiplies by ten. */
  lemma ScaleStep(e: int)
    ensures Scale(e + 1) == 10.0 * Scale(e)
  {
    if e < 0 {
      var p := Pow10(-e - 1) as real;
      assert Pow10(-e) as real == 10.0 * p;
      if e + 1 < 0 {
        assert Scale(e + 1) == 1.0 / p;
      } else {
        assert p == 1.0;
      }
      assert Scale(e) == 1.0 / (10.0 * p);
    }
  }

  /** Scaling by `10^e` and by `10^-e` cancel. */
  lemma ScaleInverse(e: int)
    ensures Scale(e) * Scale(-e) == 1.0
  {
    if e < 0 {
      assert Scale(-e) == Pow10(-e) as real;
    } else if e > 0 {
      assert Scale(e) == Pow10(e) as real;
    }
  }

  /** The exact value of a decimal number (no rounding to a float). */
  function DecimalValue(d: Decimal): real
    requires AllDigits(d.digits)
  {
    var m := DigitsValue(d.digits) as real / Pow10(d.fractionLength) as real * Scale(d.exponent);
    if d.negative then -m else m
  }

  /** The exponent after 'e'/'E': signed digits and nothing else. */
  function ScanExponent(y: string): (e: Option<int>)
    ensures e.Some? <==> SignedDigitsText(y)
    ensures e.Some? ==> e.value == SignedValue(y)
  {
    if SignedDigitsText(y) then Some(SignedValue(y)) else None
  }

  /** Every integer's text, and a non-negative one's with a '+', scans back to that integer. */
  lemma ScanExponentReads(n: int)
    ensures ScanExponent(IntToString(n)) == Some(n)
    ensures n >= 0 ==> ScanExponent("+" + NatToString(n)) == Some(n)
  {
    var t := IntToString(n);
    if n < 0 {
      assert t[1..] == NatToString(-n);
    } else {
      assert IsDigit(t[0]);
      var u := "+" + NatToString(n);
      assert u[1..] == NatToString(n);
    }
  }

  /** The sign in front of a number, and the text after it. */
  function SplitSign(t: string): (r: (bool, string))
    ensures r.0 <==> t != [] && t[0] == '-'
    ensures r.1 == if t != [] && (t[0] == '+' || t[0] == '-') then t[1..] else t
    ensures SignedDigitsText(t) ==> r.1 != [] && AllDigits(r.1)
    ensures SignedDigitsText(t) ==> SignedValue(t) == if r.0 then -(DigitsValue(r.1) as int) else DigitsValue(r.1) as int
  {
    if t != [] && (t[0] == '+' || t[0] == '-') then (t[0] == '-', t[1..]) else (false, t)
  }

  /**
   * The digits before the point, the digits after it, and the text after them.
   * A '.' belongs to the mantissa even with no digits after it.
   */
  function ScanMantissa(u: string): (r: (string, string, string))
    ensures AllDigits(r.0) && AllDigits(r.1)
  {
    var n := Span(u, IsDigit);
    var v := u[n..];
    if v != [] && v[0] == '.' then
      var w := v[1..];
      var m := Span(w, IsDigit);
      (u[..n], w[..m], w[m..])
    else (u[..n], [], v)
  }

  /**
   * The decimal form `str::parse::<f64>` accepts: an optional sign, digits with an
   * optional '.' and fraction (at least one digit in all), and an optional exponent.
   */
  function ScanDecimal(t: string): (d: Option<Decimal>)
    ensures d.Some? ==> AllDigits(d.value.digits) && d.value.digits != []
  {
    var sign := SplitSign(t);
    var m := ScanMantissa(sign.1);
    var x := m.2;
    var e := if x == [] then Some(0) else if x[0] == 'e' || x[0] == 'E' then ScanExponent(x[1..]) else None;
    if m.0 + m.1 == [] || e.None? then None
    else
      AllDigitsConcat(m.0, m.1);
      Some(Decimal(sign.0, m.0 + m.1, |m.1|, e.value))
  }

  /** `f64::from_str` on decimal text, exactly. */
  function FromStrF64(t: string): (r: Option<real>)
    ensures r.Some? <==> ScanDecimal(t).Some?
  {
    match ScanDecimal(t)
    case None => None
    case Some(d) => Some(DecimalValue(d))
  }

  /** `float64`: the text of a number, converted; a text that does not convert fails the parse. */
  function Float64(): Parser<real> { MapRes(FloatingPoint(), FromStrF64) }

  /** The decimal number that number text denotes. */
  function DecimalOf(t: string, f: string, x: string): (d: Decimal)
    requires NumberText(t, f, x)
    ensures AllDigits(d.digits)
  {
    var fp := if f == [] then [] else f[1..];
    AllDigitsConcat(Unsigned(t), fp);
    Decimal(t[0] == '-', Unsigned(t) + fp, |fp|, if x == [] then 0 else SignedValue(x[1..]))
  }

  lemma ScanMantissaOver(d: string, f: string, x: string)
    requires AllDigits(d) && FractionText(f) && ExponentText(x)
    ensures ScanMantissa(d + (f + x)) == (d, if f == [] then [] else f[1..], x)
  {
    var u := d + (f + x);
    assert EndsDigits(f + x) by {
      if f != [] { assert (f + x)[0] == f[0]; } else if x != [] { assert (f + x)[0] == x[0]; }
    }
    SpanOver(IsDigit, d, f + x);
    assert u[..|d|] == d && u[|d|..] == f + x;
    if f != [] {
      var w := f[1..] + x;
      assert (f + x)[1..] == w;
      SpanOver(IsDigit, f[1..], x);
      assert w[..|f| - 1] == f[1..] && w[|f| - 1..] == x;
    } else {
      assert f + x == x;
    }
  }

  lemma SplitSignOver(t: string, rest: string)
    requires SignedDigitsText(t)
    ensures SplitSign(t + rest) == (t[0] == '-', Unsigned(t) + rest)
  {
    if t[0] == '+' || t[0] == '-' { assert (t + rest)[1..] == t[1..] + rest; }
  }

  /** Number text always converts, to the decimal it spells. */
  lemma ScanNumberText(t: string, f: string, x: string)
    requires NumberText(t, f, x)
    ensures ScanDecimal(t + (f + x)) == Some(DecimalOf(t, f, x))
  {
    SplitSignOver(t, f + x);
    ScanMantissaOver(Unsigned(t), f, x);
  }

  /** `map_res!` never rejects what `floating_point` accepts: `float64` fails exactly where `floating_point` does. */
  lemma Float64Total(s: string)
    ensures Float64()(s).Done? <==> FloatingPoint()(s).Done?
    ensures Float64()(s).Done? ==> Float64()(s).rest == FloatingPoint()(s).rest
  {
    FloatingPointShape(s);
    if FloatingPoint()(s).Done? {
      var n := FloatingPoint()(s).value;
      var t, f, x :| n == t + (f + x) && NumberText(t, f, x);
      ScanNumberText(t, f, x);
      assert FromStrF64(n).Some?;
    }
  }

  /** Number text followed by something that cannot continue it parses to its exact value. */
  lemma Float64Over(t: string, f: string, x: string, r: string)
    requires NumberText(t, f, x) && EndsNumber(r)
    ensures Float64()(t + (f + (x + r))) == Done(r, DecimalValue(DecimalOf(t, f, x)))
  {
    FloatingPointOver(t, f, x, r);
    ScanNumberText(t, f, x);
    assert FromStrF64(t + (f + x)) == Some(DecimalValue(DecimalOf(t, f, x)));
  }

  /** A decimal with no fraction and no exponent is its digits' value. */
  lemma WholeDecimal(ds: string)
    requires AllDigits(ds)
    ensures DecimalValue(Decimal(false, ds, 0, 0)) == DigitsValue(ds) as real
  {
  }

  /** The decimal text of a natural number parses back to that number. */
  lemma Float64Nat(n: nat, r: string)
    requires EndsNumber(r)
    ensures Float64()(NatToString(n) + r) == Done(r, n as real)
  {
    var t := NatToString(n);
    assert IsDigit(t[0]);
    assert t + ("" + ("" + r)) == t + r;
    Float64Over(t, "", "", r);
    assert DecimalOf(t, "", "") == Decimal(false, t, 0, 0);
    WholeDecimal(t);
  }
}
