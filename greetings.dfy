/**
 * The greeting parsers of the first three nom lessons: a literal, the literal
 * among whitespace, one of two literals, and a greeting followed by a name.
 */
module Greetings {
  import opened Text
  import opened Nom
  import NomError

  /** The literal "hi" on its own. */
  function HiTag(): Parser<string> { Tag("hi") }

  /** "hi" with the whitespace around it skipped. */
  function HiWs(): Parser<string> { Ws(Tag("hi")) }

  /** `get_greeting`: "hi" or "bye", whitespace around it skipped. */
  function GetGreeting(): Parser<string> { Ws(Alt(Tag("hi"), Tag("bye"))) }

  /** `full_greeting`: a greeting and then a name. */
  function FullGreeting(): Parser<(string, string)> { Pair(GetGreeting(), Alpha()) }

  /** `full_greeting` with the name optional. */
  function FullGreetingOpt(): Parser<(string, Option<string>)> { Pair(GetGreeting(), Opt(Alpha())) }

  /** `full_greeting` with the name optional and the input known to be complete. */
  function FullGreetingComplete(): Parser<(string, Option<string>)> {
    Pair(GetGreeting(), Opt(Complete(Alpha())))
  }

  predicate StartsWith(s: string, t: string) { |t| <= |s| && s[..|t|] == t }

  /** The text could still grow into `t`. */
  predicate ProperPrefixOf(s: string, t: string) { |s| < |t| && s == t[..|s|] }

  /**
   * After leading whitespace, the greeting is "hi" or "bye" and what follows it,
   * less its own leading whitespace, is the remainder. Text that can no longer
   * become either word is rejected with `Alt`; text that still can is undecided.
   */
  lemma GetGreetingSpec(s: string)
    ensures var t := SkipSpace(s);
      GetGreeting()(s) ==
        if StartsWith(t, "hi") then Done(SkipSpace(t[2..]), "hi")
        else if StartsWith(t, "bye") then Done(SkipSpace(t[3..]), "bye")
        else if ProperPrefixOf(t, "hi") || ProperPrefixOf(t, "bye") then Incomplete
        else Error(NomError.Alt)
  {
    var t := SkipSpace(s);
    var hi, bye := Tag("hi")(t), Tag("bye")(t);
    var a := Alt(Tag("hi"), Tag("bye"))(t);
    if StartsWith(t, "hi") {
      assert hi == Done(t[2..], "hi");
      assert a == hi;
    } else if StartsWith(t, "bye") {
      assert !hi.Done?;
      assert bye == Done(t[3..], "bye");
      assert a == bye;
    } else if ProperPrefixOf(t, "hi") || ProperPrefixOf(t, "bye") {
      assert !hi.Done? && !bye.Done?;
      assert hi.Incomplete? || bye.Incomplete?;
      assert a == Incomplete;
    } else {
      assert hi.Error? && bye.Error?;
      assert a == Error(NomError.Alt);
    }
  }

  /** Once a greeting is read, the completed optional name never leaves the result undecided. */
  lemma FullGreetingCompleteDecided(s: string)
    ensures FullGreetingComplete()(s).Done? <==> GetGreeting()(s).Done?
    ensures GetGreeting()(s).Done? ==> FullGreetingComplete()(s).value.0 == GetGreeting()(s).value
  {
    if GetGreeting()(s).Done? {
      OptCompleteSucceeds(Alpha(), GetGreeting()(s).rest);
    }
  }

  /** Without `complete!`, a greeting at the very end of the input leaves the name undecided. */
  lemma FullGreetingOptAtEnd(s: string)
    requires GetGreeting()(s).Done? && GetGreeting()(s).rest == []
    ensures FullGreetingOpt()(s) == Incomplete
  {
  }

  lemma TagExample()
    ensures HiTag()("hi there") == Done(" there", "hi")
  {
    assert "hi there" == "hi" + " there";
    TagPrefix("hi", " there");
  }

  lemma WsExample()
    ensures HiWs()("hi there") == Done("there", "hi")
  {
    assert "hi there" == "hi" + " there";
    TagPrefix("hi", " there");
    SkipSpaceOver("", "hi there");
    SkipSpaceOver(" ", "there");
  }

  /** A greeting word between runs of whitespace is read, and the whitespace after it is skipped. */
  lemma GreetingRead(lead: string, w: string, gap: string, rest: string)
    requires AllSpace(lead) && AllSpace(gap)
    requires w == "hi" || w == "bye"
    requires rest == [] || !IsSpace(rest[0])
    ensures GetGreeting()(lead + w + gap + rest) == Done(rest, w)
  {
    var t := w + (gap + rest);
    assert lead + w + gap + rest == lead + t;
    SkipSpaceOver(lead, t);
    GetGreetingSpec(lead + t);
    assert t[..|w|] == w && t[|w|..] == gap + rest;
    if w == "bye" {
      assert t[1] != "hi"[1];
    }
    SkipSpaceOver(gap, rest);
  }

  /** Text that starts with neither word, and cannot grow into one, is rejected by `Alt`. */
  lemma GreetingRejected(lead: string, t: string)
    requires AllSpace(lead)
    requires |t| >= 3 && !IsSpace(t[0]) && t[0] != 'b' && (t[0] != 'h' || t[1] != 'i')
    ensures GetGreeting()(lead + t) == Error(NomError.Alt)
  {
    SkipSpaceOver(lead, t);
    GetGreetingSpec(lead + t);
    if t[0] == 'h' {
      assert t[..2][1] != "hi"[1];
    } else {
      assert t[..2][0] != "hi"[0];
    }
    assert t[..3][0] != "bye"[0];
  }

  lemma GetGreetingHi()
    ensures GetGreeting()(" hi ") == Done("", "hi")
  {
    GreetingRead(" ", "hi", " ", "");
    assert " " + "hi" + " " + "" == " hi ";
  }

  lemma GetGreetingBye()
    ensures GetGreeting()(" bye ") == Done("", "bye")
    ensures ToResult(GetGreeting()(" bye  ")) == Ok("bye")
  {
    GreetingRead(" ", "bye", " ", "");
    assert " " + "bye" + " " + "" == " bye ";
    GreetingRead(" ", "bye", "  ", "");
    assert " " + "bye" + "  " + "" == " bye  ";
  }

  /** Only the first greeting is consumed. */
  lemma GetGreetingFirstOnly()
    ensures GetGreeting()(" bye hi") == Done("hi", "bye")
  {
    GreetingRead(" ", "bye", " ", "hi");
    assert " " + "bye" + " " + "hi" == " bye hi";
  }

  lemma GetGreetingHola()
    ensures GetGreeting()("  hola ") == Error(NomError.Alt)
  {
    GreetingRejected("  ", "hola ");
    assert "  " + "hola " == "  hola ";
  }

  lemma GetGreetingBeforeBob()
    ensures GetGreeting()(" hi Bob  ") == Done("Bob  ", "hi")
  {
    GreetingRead(" ", "hi", " ", "Bob  ");
    assert " " + "hi" + " " + "Bob  " == " hi Bob  ";
  }

  lemma FullGreetingBob()
    ensures ToResult(FullGreeting()(" hi Bob  ")) == Ok(("hi", "Bob"))
    ensures ToResult(FullGreetingOpt()(" hi Bob  ")) == Ok(("hi", Some("Bob")))
  {
    GetGreetingBeforeBob();
    assert "Bob  " == "Bob" + "  ";
    RunOver(IsAlpha, NomError.Alpha, "Bob", "  ");
    PairDone(GetGreeting(), Alpha(), " hi Bob  ");
    OptSpec(Alpha(), "Bob  ");
    PairDone(GetGreeting(), Opt(Alpha()), " hi Bob  ");
  }

  lemma GetGreetingBeforeQuestion()
    ensures GetGreeting()(" bye ?") == Done("?", "bye")
  {
    GreetingRead(" ", "bye", " ", "?");
    assert " " + "bye" + " " + "?" == " bye ?";
  }

  lemma FullGreetingNoName()
    ensures ToResult(FullGreetingOpt()(" bye ?")) == Ok(("bye", None))
  {
    GetGreetingBeforeQuestion();
    RunSpec(IsAlpha, NomError.Alpha, "?");
    OptSpec(Alpha(), "?");
    PairDone(GetGreeting(), Opt(Alpha()), " bye ?");
  }

  /** " bye " needs `complete!`: without it the name is undecided, with it the name is `None`. */
  lemma FullGreetingAtEnd()
    ensures FullGreetingOpt()(" bye ") == Incomplete
    ensures ToResult(FullGreetingComplete()(" bye ")) == Ok(("bye", None))
  {
    GetGreetingBye();
    FullGreetingOptAtEnd(" bye ");
    OptCompleteSucceeds(Alpha(), "");
  }
}
