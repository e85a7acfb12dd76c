/** The tuple patterns of the second match lesson, tried from the top arm down. */
module TuplePatterns {
  import opened Text

  /** What `match_tuple` prints: the text of the first two arms, or the tuple itself from the catch-all arm. */
  datatype Outcome = Printed(text: string) | NoMatch(n: I32, s: string)

  /** `match_tuple((n, s))`. */
  function MatchTuple(n: I32, s: string): (r: Outcome)
    ensures n == 0 ==> r == Printed("zero " + s)
    ensures n == 1 && s == "hello" ==> r == Printed("hello one!")
    ensures r.NoMatch? <==> n != 0 && !(n == 1 && s == "hello")
    ensures r.NoMatch? ==> r == NoMatch(n, s)
  {
    if n == 0 then Printed("zero " + s)
    else if n == 1 && s == "hello" then Printed("hello one!")
    else NoMatch(n, s)
  }

  /** The first arm wins even for "hello": arms are tried in order. */
  lemma ZeroHello()
    ensures MatchTuple(0, "hello") == Printed("zero hello")
  {
  }

  /** Once the guard fails, a first element of 1 falls through to the catch-all arm. */
  lemma OneGuardFails(s: string)
    requires s != "hello"
    ensures MatchTuple(1, s) == NoMatch(1, s)
  {
  }

  /** `match (42, "answer") { (42, "answer") => "yes", _ => "no" }`. */
  function Answer(n: I32, s: string): (r: string)
    ensures r == "yes" <==> (n, s) == (42, "answer")
    ensures r == "yes" || r == "no"
  {
    match (n, s)
    case (42, "answer") => "yes"
    case _ => "no"
  }

  lemma AnswerExample()
    ensures Answer(42, "answer") == "yes"
    ensures Answer(42, "answers") == "no" && Answer(41, "answer") == "no"
  {
  }
}
