/**
 * `run(s)` from the second error-handling lesson: an empty text is refused
 * with a plain string error before anything else; any other text is trimmed
 * and parsed as an `i32`, and a parse failure is passed on with `?`.
 */
module BoxedErrors {
  import opened Text
  import opened Splitting

  /** The boxed error: a `SimpleError` from `bail!`, or the `ParseIntError` of `parse`. */
  datatype RunError = Simple(message: string) | BadInt(kind: IntErrorKind)

  datatype RunResult = Ok(value: I32) | Err(error: RunError)

  /** `run(s)`. */
  function Run(s: string): (r: RunResult)
    ensures s == [] <==> r == Err(Simple("empty string"))
    ensures r.Ok? ==> ParseInt(Trim(s), I32Min, I32Max) == IntOk(r.value)
    ensures s != [] && r.Err? ==> r.error.BadInt? && ParseInt(Trim(s), I32Min, I32Max) == IntErr(r.error.kind)
  {
    if |s| == 0 then Err(Simple("empty string"))
    else
      match ParseInt(Trim(s), I32Min, I32Max)
      case IntOk(n) => Ok(n)
      case IntErr(k) => Err(BadInt(k))
  }

  /** The decimal text of any `i32`, with or without surrounding whitespace, runs to that number. */
  lemma RunDecimal(n: I32, before: string, after: string)
    requires forall i :: 0 <= i < |before| ==> IsWhitespace(before[i])
    requires forall i :: 0 <= i < |after| ==> IsWhitespace(after[i])
    ensures Run(before + IntToString(n) + after) == Ok(n)
  {
    var t := IntToString(n);
    var s := before + t + after;
    TrimAround(before, t, after);
    ParseIntToString(n, I32Min, I32Max);
  }

  /** Trimming whitespace on both sides of a text with no whitespace at its ends gives the text back. */
  lemma TrimAround(before: string, t: string, after: string)
    requires t != [] && !IsWhitespace(t[0]) && !IsWhitespace(t[|t| - 1])
    requires forall i :: 0 <= i < |before| ==> IsWhitespace(before[i])
    requires forall i :: 0 <= i < |after| ==> IsWhitespace(after[i])
    ensures Trim(before + t + after) == t
  {
    assert before + t + after == before + (t + after);
    TrimStartOver(before, t + after);
    TrimEndOver(t, after);
  }

  /** A whitespace-only text is not empty, so it gets past the check and fails to parse as empty. */
  lemma RunBlank(s: string)
    requires s != [] && forall i :: 0 <= i < |s| ==> IsWhitespace(s[i])
    ensures Run(s) == Err(BadInt(Empty))
  {
    var ts := TrimStart(s);
  }

  lemma RunTwentyThree()
    ensures Run("23") == Ok(23)
  {
    assert ParseInt("23", I32Min, I32Max) == IntOk(23);
  }

  lemma RunTwoX()
    ensures Run("2x") == Err(BadInt(InvalidDigit))
  {
    assert ParseInt("2x", I32Min, I32Max) == IntErr(InvalidDigit);
  }

  /** `run("23")`, `run("2x")` and `run("")`. */
  lemma Lesson()
    ensures Run("23") == Ok(23)
    ensures Run("2x") == Err(BadInt(InvalidDigit))
    ensures Run("") == Err(Simple("empty string"))
  {
    RunTwentyThree();
    RunTwoX();
  }
}
