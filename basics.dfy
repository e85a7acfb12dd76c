/**
 * `array_to_str` from the third string lesson: a bracket, each element's
 * decimal text followed by a comma, then `pop` takes off the last character
 * and a closing bracket goes on.
 */
module ArrayText {
  import opened Text
  import opened Splitting

  /** The decimal text of each element, in order. */
  function Texts(arr: seq<int>): (r: seq<string>)
    ensures |r| == |arr|
    ensures forall i :: 0 <= i < |arr| ==> r[i] == IntToString(arr[i])
  {
    seq(|arr|, i requires 0 <= i < |arr| => IntToString(arr[i]))
  }

  /** What the loop appends: every text followed by a comma. */
  function Listed(ts: seq<string>): string {
    if ts == [] then "" else ts[0] + "," + Listed(ts[1..])
  }

  /** The rendering the lesson is after: the texts between brackets, joined by commas. */
  function Rendered(arr: seq<int>): string {
    if arr == [] then "]" else "[" + Join(Texts(arr), ',') + "]"
  }

  /** Regrouping four pieces of text. */
  lemma Regroup(a: string, b: string, c: string, d: string)
    ensures a + (b + c + d) == (a + b) + c + d
  {
  }

  lemma {:induction false} ListedSnoc(ts: seq<string>, t: string)
    ensures Listed(ts + [t]) == Listed(ts) + t + ","
  {
    if ts != [] {
      assert (ts + [t])[1..] == ts[1..] + [t];
      ListedSnoc(ts[1..], t);
      Regroup(ts[0] + ",", Listed(ts[1..]), t, ",");
    }
  }

  /** Everything but the last comma of the loop's text is the joined texts. */
  lemma {:induction false} ListedJoin(ts: seq<string>)
    requires ts != []
    ensures Listed(ts) == Join(ts, ',') + ","
  {
    if |ts| > 1 {
      ListedJoin(ts[1..]);
    }
  }

  /** Taking off the last character of the loop's text and adding `]` gives the rendering. */
  lemma PopAndClose(arr: seq<int>, res: string)
    requires res == "[" + Listed(Texts(arr))
    ensures res[..|res| - 1] + "]" == Rendered(arr)
  {
    if arr != [] {
      ListedJoin(Texts(arr));
      var j := Join(Texts(arr), ',');
      assert res == "[" + j + ",";
      assert res[..|res| - 1] == "[" + j;
    }
  }

  /** The texts of one more element. */
  lemma TextsSnoc(arr: seq<int>, i: nat)
    requires i < |arr|
    ensures Texts(arr[..i + 1]) == Texts(arr[..i]) + [IntToString(arr[i])]
  {
  }

  /** One turn of the loop: the element's text and a comma go on the end. */
  lemma AppendOne(arr: seq<int>, i: nat, res: string)
    requires i < |arr| && res == "[" + Listed(Texts(arr[..i]))
    ensures res + IntToString(arr[i]) + "," == "[" + Listed(Texts(arr[..i + 1]))
  {
    var ts, t := Texts(arr[..i]), IntToString(arr[i]);
    TextsSnoc(arr, i);
    ListedSnoc(ts, t);
    Regroup("[", Listed(ts), t, ",");
  }

  /** `array_to_str`: the loop, the `pop` and the closing bracket. */
  method ArrayToStr(arr: seq<I32>) returns (res: string)
    ensures res == Rendered(arr)
  {
    res := "[";
    for i := 0 to |arr|
      invariant res == "[" + Listed(Texts(arr[..i]))
    {
      var text := IntToString(arr[i]);
      AppendOne(arr, i, res);
      res := res + text;
      res := res + ",";
    }
    assert arr[..|arr|] == arr;
    PopAndClose(arr, res);
    res := res[..|res| - 1];
    res := res + "]";
  }

  predicate IsComma(c: char) { c == ',' }

  lemma NoCommaInNumber(n: int)
    ensures NoneIn(IntToString(n), IsComma)
  {
    var t := IntToString(n);
    if n >= 0 {
      assert AllDigits(t);
    } else {
      assert t == "-" + NatToString(-n);
      assert AllDigits(t[1..]);
    }
  }

  /**
   * For a non-empty slice the text reads back: between the brackets, the
   * pieces between commas are the elements' texts, and each parses back to
   * its element.
   */
  lemma RenderedReadsBack(arr: seq<I32>)
    requires arr != []
    ensures Rendered(arr)[0] == '[' && Rendered(arr)[|Rendered(arr)| - 1] == ']'
    ensures Split(Rendered(arr)[1..|Rendered(arr)| - 1], IsComma) == Texts(arr)
    ensures forall i :: 0 <= i < |arr| ==> ParseInt(Split(Rendered(arr)[1..|Rendered(arr)| - 1], IsComma)[i], I32Min, I32Max) == IntOk(arr[i])
  {
    var texts := Texts(arr);
    assert Rendered(arr)[1..|Rendered(arr)| - 1] == Join(texts, ',');
    forall i | 0 <= i < |texts| ensures NoneIn(texts[i], IsComma) {
      NoCommaInNumber(arr[i]);
    }
    SplitJoin(texts, ',', IsComma);
    forall i | 0 <= i < |arr| ensures ParseInt(texts[i], I32Min, I32Max) == IntOk(arr[i]) {
      ParseIntToString(arr[i], I32Min, I32Max);
    }
  }

  /** For an empty slice `pop` takes off the opening bracket, leaving only the closing one. */
  lemma EmptySlice()
    ensures Rendered([]) == "]"
  {
  }

  lemma TextsTens()
    ensures Texts([10, 20, 30]) == ["10", "20", "30"]
  {
    assert IntToString(10) == "10" && IntToString(20) == "20" && IntToString(30) == "30";
  }

  lemma JoinTens()
    ensures Join(["10", "20", "30"], ',') == "10,20,30"
  {
  }

  lemma RenderedTens()
    ensures Rendered([10, 20, 30]) == "[10,20,30]"
  {
    TextsTens();
    JoinTens();
  }

  /** `format!("hello {}", array_to_str(&[10, 20, 30]))`. */
  method Lesson() returns (res: string)
    ensures res == "hello [10,20,30]"
  {
    var text := ArrayToStr([10, 20, 30]);
    RenderedTens();
    res := "hello " + text;
  }
}

/** `sum` from the second array lesson: a loop over the indices of a slice. */
module SliceSum {
  import opened Text

  /** The sum of a slice, element by element from the front. */
  function Total(values: seq<int>): int {
    if values == [] then 0 else Total(values[..|values| - 1]) + values[|values| - 1]
  }

  /** Every running total the loop reaches fits in an `i32`; otherwise `+=` panics. */
  predicate RunningTotalsFit(values: seq<int>) {
    forall k :: 0 <= k <= |values| ==> I32Min <= Total(values[..k]) <= I32Max
  }

  /** The sum of two slices one after the other is the sum of their sums. */
  lemma {:induction false} TotalAppend(a: seq<int>, b: seq<int>)
    ensures Total(a + b) == Total(a) + Total(b)
  {
    if b != [] {
      var ab := a + b;
      assert ab[..|ab| - 1] == a + b[..|b| - 1];
      assert ab[|ab| - 1] == b[|b| - 1];
      TotalAppend(a, b[..|b| - 1]);
      assert Total(ab) == Total(ab[..|ab| - 1]) + ab[|ab| - 1];
    } else {
      assert a + b == a;
    }
  }

  /** `sum(values)`: after index `i`, `res` holds the sum of the first `i + 1` elements. */
  method Sum(values: seq<I32>) returns (res: I32)
    requires RunningTotalsFit(values)
    ensures res == Total(values)
  {
    res := 0;
    for i := 0 to |values|
      invariant res == Total(values[..i])
    {
      assert values[..i + 1][..i] == values[..i];
      res := res + values[i];
    }
    assert values[..|values|] == values;
  }

  /** `sum(&[10, 20, 30, 40])` is 100. */
  method Lesson() returns (res: I32)
    ensures res == 100
  {
    var arr: seq<I32> := [10, 20, 30, 40];
    assert arr[..0] == [] && arr[..1] == [10] && arr[..2] == [10, 20];
    assert arr[..3] == [10, 20, 30] && arr[..4] == arr;
    assert Total(arr[..1]) == 10;
    assert Total(arr[..2]) == 30;
    assert [10, 20, 30][..2] == [10, 20];
    assert Total(arr[..3]) == 60;
    assert [10, 20, 30, 40][..3] == [10, 20, 30];
    assert Total(arr[..4]) == 100;
    res := Sum(arr);
  }
}

/** `factorial` and `by_ref` from the third function lesson. */
module Recursion {
  import opened Text

  const U64Max: int := 0xFFFF_FFFF_FFFF_FFFF

  /** `factorial(n)`: 1 at 0, otherwise `n * factorial(n - 1)`. */
  function Factorial(n: nat): (r: nat)
    ensures r >= 1
  {
    if n == 0 then 1 else n * Factorial(n - 1)
  }

  /** Factorials never shrink as `n` grows. */
  lemma {:induction false} FactorialGrows(m: nat, n: nat)
    requires m <= n
    ensures Factorial(m) <= Factorial(n)
  {
    if m < n {
      FactorialGrows(m, n - 1);
    }
  }

  lemma FactorialOfTwenty()
    ensures Factorial(20) == 2432902008176640000
  {
    assert Factorial(10) == 3628800;
  }

  /** Up to 20 the result fits in a `u64`; from 21 on `n * factorial(n - 1)` overflows. */
  lemma FactorialFits(n: nat)
    ensures n <= 20 ==> Factorial(n) <= U64Max
    ensures n > 20 ==> Factorial(n) > U64Max
  {
    FactorialOfTwenty();
    if n <= 20 {
      FactorialGrows(n, 20);
    } else {
      FactorialGrows(21, n);
    }
  }

  /** `by_ref(&x)`: one more than the value behind the reference. */
  function ByRef(x: I32): (r: I32)
    requires x < I32Max
    ensures r == x + 1
  {
    x + 1
  }

  lemma ByRefExamples()
    ensures ByRef(10) == 11 && ByRef(41) == 42
  {
  }
}

/** `abs` and `clamp` from the second function lesson, over exact reals. */
module RealFunctions {

  /** `abs`: `x` when positive, otherwise `-x`. */
  function Abs(x: real): (r: real)
    ensures r >= 0.0
    ensures r == x || r == -x
  {
    if x > 0.0 then x else -x
  }

  /** A number and its negation have the same absolute value. */
  lemma AbsSymmetric(x: real)
    ensures Abs(-x) == Abs(x)
  {
  }

  /** `clamp(x, x1, x2)`: `x1` below the range, `x2` above it, `x` inside. */
  function Clamp(x: real, x1: real, x2: real): (r: real)
    ensures x < x1 ==> r == x1
    ensures x1 <= x <= x2 ==> r == x
    ensures x1 <= x && x2 < x ==> r == x2
    ensures x1 <= x2 ==> x1 <= r <= x2
  {
    if x < x1 then x1 else if x > x2 then x2 else x
  }

  /** Clamping twice is clamping once. */
  lemma ClampIdempotent(x: real, x1: real, x2: real)
    requires x1 <= x2
    ensures Clamp(Clamp(x, x1, x2), x1, x2) == Clamp(x, x1, x2)
  {
  }

  /** Clamping keeps the order of its inputs. */
  lemma ClampMonotonic(x: real, y: real, x1: real, x2: real)
    requires x1 <= x2 && x <= y
    ensures Clamp(x, x1, x2) <= Clamp(y, x1, x2)
  {
  }
}
