/** Character classes, decimal text and Rust's integer parsing, shared by the lessons. */
module Text {

  /** Rust's `Option`. */
  datatype Option<T> = None | Some(value: T)

  /** ASCII decimal digit. */
  predicate IsDigit(c: char) { '0' <= c <= '9' }

  /** ASCII letter (the model does not cover Unicode letters). */
  predicate IsAlpha(c: char) { 'a' <= c <= 'z' || 'A' <= c <= 'Z' }

  /** The separators nom's `ws!` skips: space, tab, carriage return and line feed. */
  predicate IsSpace(c: char) { c == ' ' || c == '\t' || c == '\r' || c == '\n' }

  /** The ASCII part of Rust's `char::is_whitespace`: space and '\t' through '\r'. */
  predicate IsWhitespace(c: char) { c == ' ' || '\t' <= c <= '\r' }

  predicate AllDigits(s: string) { forall i :: 0 <= i < |s| ==> IsDigit(s[i]) }

  lemma AllDigitsConcat(a: string, b: string)
    ensures AllDigits(a + b) <==> AllDigits(a) && AllDigits(b)
  {
    if AllDigits(a) && AllDigits(b) {
      forall i | 0 <= i < |a + b| ensures IsDigit((a + b)[i]) {
        if i >= |a| { assert (a + b)[i] == b[i - |a|]; }
      }
    }
    if AllDigits(a + b) {
      forall i | 0 <= i < |b| ensures IsDigit(b[i]) { assert b[i] == (a + b)[i + |a|]; }
      forall i | 0 <= i < |a| ensures IsDigit(a[i]) { assert a[i] == (a + b)[i]; }
    }
  }

  function DigitValue(c: char): (d: nat)
    requires IsDigit(c)
    ensures d < 10
  {
    c as int - '0' as int
  }

  function DigitChar(d: nat): (c: char)
    requires d < 10
    ensures IsDigit(c) && DigitValue(c) == d
  {
    ('0' as int + d) as char
  }

  function Pow10(n: nat): (r: nat)
    ensures r >= 1
  {
    if n == 0 then 1 else 10 * Pow10(n - 1)
  }

  /** The value of a string of decimal digits, most significant digit first. */
  function DigitsValue(s: string): nat
    requires AllDigits(s)
  {
    if s == [] then 0 else DigitsValue(s[..|s| - 1]) * 10 + DigitValue(s[|s| - 1])
  }

  /** Rust's `to_string` for a non-negative integer: decimal, no leading zeros. */
  function NatToString(n: nat): (r: string)
    ensures |r| > 0 && AllDigits(r)
    ensures DigitsValue(r) == n
    ensures r[0] == '0' ==> n == 0
  {
    if n < 10 then [DigitChar(n)]
    else
      var r := NatToString(n / 10) + [DigitChar(n % 10)];
      assert r[..|r| - 1] == NatToString(n / 10);
      r
  }

  /** Rust's `to_string` for an integer: a leading '-' for negatives. */
  function IntToString(i: int): (r: string)
    ensures |r| > 0
    ensures i >= 0 ==> r == NatToString(i)
    ensures i < 0 ==> r == "-" + NatToString(-i)
  {
    if i < 0 then "-" + NatToString(-i) else NatToString(i)
  }

  /** An integer's text starts with '-' exactly when it is negative, and the rest spells its magnitude. */
  lemma IntToStringSpells(i: int)
    ensures var r := IntToString(i); (r[0] == '-') <==> i < 0
    ensures var r := IntToString(i); var d := if i < 0 then r[1..] else r;
      d != [] && AllDigits(d) && DigitsValue(d) == (if i < 0 then -i else i) && (d[0] == '0' ==> i == 0)
  {
    var r := IntToString(i);
    if i < 0 {
      assert r[1..] == NatToString(-i);
    }
  }

  /** Reading the first digit off: the left-to-right form of DigitsValue. */
  lemma {:induction false} DigitsValueCons(c: char, t: string)
    requires IsDigit(c) && AllDigits(t)
    ensures AllDigits([c] + t)
    ensures DigitsValue([c] + t) == DigitValue(c) * Pow10(|t|) + DigitsValue(t)
    decreases |t|
  {
    var s := [c] + t;
    assert AllDigits(s) by {
      forall i | 0 <= i < |s| ensures IsDigit(s[i]) { if i > 0 { assert s[i] == t[i - 1]; } }
    }
    if t != [] {
      var t' := t[..|t| - 1];
      assert s[..|s| - 1] == [c] + t';
      DigitsValueCons(c, t');
      var d := DigitValue(t[|t| - 1]);
      assert DigitsValue(s) == DigitsValue([c] + t') * 10 + d;
      assert DigitsValue(t) == DigitsValue(t') * 10 + d;
      assert Pow10(|t|) == Pow10(|t'|) * 10;
      ShiftAlgebra(DigitValue(c), Pow10(|t'|), DigitsValue(t'), d);
    }
  }

  // ---------------------------------------------------------------------------
  // Rust's `str::parse` for a bounded integer type

  /** The kinds of `ParseIntError` (in the 2017 standard library). */
  datatype IntErrorKind = Empty | InvalidDigit | Overflow | Underflow

  datatype IntResult = IntOk(value: int) | IntErr(kind: IntErrorKind)

  const I8Min: int := -128
  const I8Max: int := 127
  const I32Min: int := -0x8000_0000
  const I32Max: int := 0x7FFF_FFFF

  /** Rust's `i32`. */
  type I32 = n: int | I32Min <= n <= I32Max

  /** The text of `ParseIntError::description()`. */
  function Description(k: IntErrorKind): string {
    match k
    case Empty => "cannot parse integer from empty string"
    case InvalidDigit => "invalid digit found in string"
    case Overflow => "number too large to fit in target type"
    case Underflow => "number too small to fit in target type"
  }

  /**
   * Parses `s` as a signed integer in [lo, hi]: an optional '+' (or '-' when
   * the type is signed), then decimal digits, checked for overflow digit by digit.
   */
  function ParseInt(s: string, lo: int, hi: int): (r: IntResult)
    requires lo <= 0 < hi
    ensures r.IntOk? ==> lo <= r.value <= hi
    ensures s == [] ==> r == IntErr(Empty)
  {
    if s == [] then IntErr(Empty)
    else
      var negative := s[0] == '-' && lo < 0;
      var digits := if s[0] == '+' || negative then s[1..] else s;
      if digits == [] then IntErr(Empty) else Accumulate(digits, 0, negative, lo, hi)
  }

  /** The digit loop of ParseInt: the first bad digit or out-of-range step decides the error. */
  function Accumulate(ds: string, acc: int, negative: bool, lo: int, hi: int): (r: IntResult)
    requires lo <= acc <= hi
    ensures r.IntOk? ==> lo <= r.value <= hi
    decreases |ds|
  {
    if ds == [] then IntOk(acc)
    else if !IsDigit(ds[0]) then IntErr(InvalidDigit)
    else
      var next := if negative then acc * 10 - DigitValue(ds[0]) else acc * 10 + DigitValue(ds[0]);
      if next < lo then IntErr(Underflow)
      else if next > hi then IntErr(Overflow)
      else Accumulate(ds[1..], next, negative, lo, hi)
  }

  /** The value Accumulate reaches on digits `ds` from `acc`. */
  function Combined(acc: int, ds: string, negative: bool): int
    requires AllDigits(ds)
  {
    if negative then acc * Pow10(|ds|) - DigitsValue(ds) else acc * Pow10(|ds|) + DigitsValue(ds)
  }

  lemma {:induction false} AccumulateDigits(ds: string, acc: int, negative: bool, lo: int, hi: int)
    requires AllDigits(ds) && lo <= acc <= hi
    requires negative ==> acc <= 0
    requires !negative ==> acc >= 0
    requires lo <= Combined(acc, ds, negative) <= hi
    ensures Accumulate(ds, acc, negative, lo, hi) == IntOk(Combined(acc, ds, negative))
    decreases |ds|
  {
    if ds != [] {
      var c, t := ds[0], ds[1..];
      assert ds == [c] + t;
      DigitsValueCons(c, t);
      var d := DigitValue(c);
      var next := if negative then acc * 10 - d else acc * 10 + d;
      assert AllDigits(t) by { forall i | 0 <= i < |t| ensures IsDigit(t[i]) { assert t[i] == ds[i + 1]; } }
      StepAlgebra(acc, d, Pow10(|t|), DigitsValue(t), negative);
      assert Pow10(|ds|) == 10 * Pow10(|t|);
      assert Combined(acc, ds, negative) == Combined(next, t, negative);
      assert lo <= next <= hi;
      assert Accumulate(ds, acc, negative, lo, hi) == Accumulate(t, next, negative, lo, hi);
      AccumulateDigits(t, next, negative, lo, hi);
    }
  }

  /** One digit step of Combined, and the step value lies between acc and the final value. */
  lemma StepAlgebra(acc: int, d: nat, p: nat, v: nat, negative: bool)
    requires p >= 1
    requires negative ==> acc <= 0
    requires !negative ==> acc >= 0
    ensures negative ==> acc * (10 * p) - (d * p + v) == (acc * 10 - d) * p - v
    ensures !negative ==> acc * (10 * p) + (d * p + v) == (acc * 10 + d) * p + v
    ensures negative ==> (acc * 10 - d) * p - v <= acc * 10 - d <= acc
    ensures !negative ==> acc <= acc * 10 + d <= (acc * 10 + d) * p + v
  {
    var next := if negative then acc * 10 - d else acc * 10 + d;
    var step: int := if negative then 0 - (d as int) else d as int;
    Distribute(acc * 10, step, p);
    Regroup10(acc, p);
    Distribute(next, -next, p - 1);
    if negative {
      NonNegProduct(-next, p - 1);
    } else {
      NonNegProduct(next, p - 1);
    }
  }

  lemma Distribute(x: int, y: int, p: int)
    ensures (x + y) * p == x * p + y * p
    ensures x * p + x * 1 == x * (p + 1)
  {
  }

  lemma Regroup10(acc: int, p: int)
    ensures (acc * 10) * p == acc * (10 * p)
  {
  }

  lemma NonNegProduct(a: int, b: int)
    requires a >= 0 && b >= 0
    ensures a * b >= 0
  {
  }

  /** Round trip: parsing the decimal text of an in-range integer gives it back. */
  lemma ParseIntToString(n: int, lo: int, hi: int)
    requires lo <= 0 < hi && lo <= n <= hi
    ensures ParseInt(IntToString(n), lo, hi) == IntOk(n)
  {
    var s := IntToString(n);
    if n >= 0 {
      var ds := NatToString(n);
      assert IsDigit(ds[0]) && s == ds;
      assert Combined(0, ds, false) == n;
      AccumulateDigits(ds, 0, false, lo, hi);
    } else {
      var ds := NatToString(-n);
      assert s[0] == '-' && s[1..] == ds;
      assert Combined(0, ds, true) == n;
      AccumulateDigits(ds, 0, true, lo, hi);
    }
  }

  /** Digits whose value passes the upper bound overflow; they never underflow or count as invalid. */
  lemma {:induction false} AccumulateOverflow(ds: string, acc: int, lo: int, hi: int)
    requires AllDigits(ds) && lo <= 0 <= acc <= hi
    requires Combined(acc, ds, false) > hi
    ensures Accumulate(ds, acc, false, lo, hi) == IntErr(Overflow)
    decreases |ds|
  {
    var c, t := ds[0], ds[1..];
    assert ds == [c] + t;
    DigitsValueCons(c, t);
    var d := DigitValue(c);
    assert AllDigits(t) by { forall i | 0 <= i < |t| ensures IsDigit(t[i]) { assert t[i] == ds[i + 1]; } }
    StepAlgebra(acc, d, Pow10(|t|), DigitsValue(t), false);
    if acc * 10 + d <= hi {
      AccumulateOverflow(t, acc * 10 + d, lo, hi);
    }
  }

  /** An unsigned run of digits converts to its value when that fits, and overflows otherwise. */
  lemma ParseDigits(ds: string, lo: int, hi: int)
    requires ds != [] && AllDigits(ds) && lo <= 0 < hi
    ensures ParseInt(ds, lo, hi) == if DigitsValue(ds) <= hi then IntOk(DigitsValue(ds)) else IntErr(Overflow)
  {
    assert IsDigit(ds[0]);
    if DigitsValue(ds) <= hi {
      AccumulateDigits(ds, 0, false, lo, hi);
    } else {
      AccumulateOverflow(ds, 0, lo, hi);
    }
  }

  /** The value of two runs of digits written one after the other. */
  lemma {:induction false} DigitsValueConcat(a: string, b: string)
    requires AllDigits(a) && AllDigits(b)
    ensures AllDigits(a + b)
    ensures DigitsValue(a + b) == DigitsValue(a) * Pow10(|b|) + DigitsValue(b)
    decreases |b|
  {
    AllDigitsConcat(a, b);
    if b != [] {
      var b' := b[..|b| - 1];
      assert AllDigits(b') by { forall i | 0 <= i < |b'| ensures IsDigit(b'[i]) { assert b'[i] == b[i]; } }
      assert (a + b)[..|a + b| - 1] == a + b';
      AllDigitsConcat(a, b');
      DigitsValueConcat(a, b');
      var d := DigitValue(b[|b| - 1]);
      assert DigitsValue(a + b) == DigitsValue(a + b') * 10 + d;
      assert DigitsValue(b) == DigitsValue(b') * 10 + d;
      assert Pow10(|b|) == Pow10(|b'|) * 10;
      ShiftAlgebra(DigitsValue(a), Pow10(|b'|), DigitsValue(b'), d);
    } else {
      assert a + b == a;
    }
  }

  lemma ShiftAlgebra(x: nat, p: nat, y: nat, d: nat)
    ensures (x * p + y) * 10 + d == x * (p * 10) + (y * 10 + d)
  {
  }
}
