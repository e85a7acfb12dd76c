/**
 * The repetition parsers of the fifth nom lesson: summing whitespace-separated
 * numbers with `fold_many1!`, collecting them with `many1!`, and reading a
 * point either as a tuple or, with `do_parse!`, as a `Point`.
 */
module MultipleMatches {
  import opened Text
  import opened Nom
  import opened Numbers

  function Add(acc: real, v: real): real { acc + v }

  /** `fold_sum`: one or more numbers, added up from 0.0. */
  function FoldSum(): Parser<real> { FoldMany1(Ws(Float64()), 0.0, Add) }

  /** `many1!(ws!(float64))`: one or more numbers, in order. */
  function Floats(): Parser<seq<real>> { Many1(Ws(Float64())) }

  /** The sum of a list, as `[..].iter().fold(0, |acc, v| acc + v)` computes it. */
  function Sum(vs: seq<real>): real { FoldLeft(Add, 0.0, vs) }

  /** `fold_sum` adds up exactly the numbers `many1!` collects. */
  lemma FoldSumIsSumOfFloats(s: string)
    ensures FoldSum()(s) == Map(Floats(), Sum)(s)
  {
    FoldMany1IsFoldOfMany1(Ws(Float64()), 0.0, Add, s);
    assert forall vs :: Sum(vs) == ((vs: seq<real>) => FoldLeft(Add, 0.0, vs))(vs);
    assert Map(Floats(), Sum)(s) == Map(Floats(), (vs: seq<real>) => FoldLeft(Add, 0.0, vs))(s);
  }

  /** At least one number is needed: the empty input does not give a sum. */
  lemma FoldSumNeedsOne()
    ensures !FoldSum()("").Done?
  {
    assert SkipSpace("") == "";
    Float64Total("");
    FloatingPointShape("");
    FoldMany1NeedsOne(Ws(Float64()), 0.0, Add, "");
  }

  /** One number of the list, with the spaces after it. */
  lemma NumberStep(n: nat, sp: string, r: string)
    requires AllSpace(sp) && sp != [] && (r == [] || !IsSpace(r[0]))
    ensures Ws(Float64())(NatToString(n) + (sp + r)) == Done(r, n as real)
  {
    var t := NatToString(n);
    assert IsDigit(t[0]);
    SkipSpaceOver("", t + (sp + r));
    assert "" + (t + (sp + r)) == t + (sp + r);
    Float64Nat(n, sp + r);
    SkipSpaceOver(sp, r);
  }

  /** The last number of the list. */
  lemma LastNumber(n: nat)
    ensures Ws(Float64())(NatToString(n)) == Done("", n as real)
  {
    var t := NatToString(n);
    assert IsDigit(t[0]);
    SkipSpaceOver("", t);
    assert "" + t == t;
    assert t + "" == t;
    Float64Nat(n, "");
    SkipSpaceOver("", "");
  }

  /** The three numbers of "1 2 3", one at a time. */
  lemma OneTwoThree()
    ensures Ws(Float64())("1 2 3") == Done("2 3", 1.0)
    ensures Ws(Float64())("2 3") == Done("3", 2.0)
    ensures Ws(Float64())("3") == Done("", 3.0)
  {
    assert NatToString(1) == "1" && NatToString(2) == "2" && NatToString(3) == "3";
    assert "1 2 3" == "1" + (" " + "2 3");
    assert "2 3" == "2" + (" " + "3");
    NumberStep(1, " ", "2 3");
    NumberStep(2, " ", "3");
    LastNumber(3);
  }

  /** Three advancing matches, the last one at the end of the input, fold to their values in order. */
  lemma FoldThree<B>(p: Parser<real>, init: B, f: (B, real) -> B, s1: string, s2: string, s3: string, v1: real, v2: real, v3: real)
    requires p(s1) == Done(s2, v1) && p(s2) == Done(s3, v2) && p(s3) == Done("", v3)
    requires 0 < |s3| < |s2| < |s1|
    ensures FoldMany1(p, init, f)(s1) == Done("", f(f(f(init, v1), v2), v3))
  {
    FoldMany1Step(p, init, f, s1, s2, v1);
    FoldLoopStep(p, f(init, v1), f, s2, s3, v2);
    FoldLoopStep(p, f(f(init, v1), v2), f, s3, "", v3);
  }

  /** `many1!(ws!(float64))` reads "1 2 3" as [1.0, 2.0, 3.0]. */
  lemma FloatsExample()
    ensures Floats()("1 2 3") == Done("", [1.0, 2.0, 3.0])
  {
    OneTwoThree();
    FoldThree(Ws(Float64()), [], Snoc, "1 2 3", "2 3", "3", 1.0, 2.0, 3.0);
    SnocThree();
  }

  lemma SnocThree()
    ensures Snoc(Snoc(Snoc([], 1.0), 2.0), 3.0) == [1.0, 2.0, 3.0]
  {
  }

  /** `fold_sum("1 2 3")` is 6. */
  lemma FoldSumExample()
    ensures FoldSum()("1 2 3") == Done("", 6.0)
    ensures ToResult(FoldSum()("1 2 3")) == Ok(6.0)
  {
    OneTwoThree();
    FoldThree(Ws(Float64()), 0.0, Add, "1 2 3", "2 3", "3", 1.0, 2.0, 3.0);
  }

  /** The plain-iterator fold of the lesson: [1, 2, 3] sums to 6. */
  lemma SumExample()
    ensures Sum([1.0, 2.0, 3.0]) == 6.0
  {
    assert [1.0, 2.0, 3.0][1..] == [2.0, 3.0] && [2.0, 3.0][1..] == [3.0] && [3.0][1..] == [];
  }

  // ---------------------------------------------------------------------------
  // Points

  /** `pointf` as a tuple: a number, a comma and a number. */
  function PointTuple(): Parser<(real, string, real)> { Tuple3(Float64(), Tag(","), Float64()) }

  datatype Point = Point(x: real, y: real)

  function MakePoint(x: real, y: real): Point { Point(x, y) }

  /** `pointf` with `do_parse!`: the comma is matched and dropped. */
  function PointF(): Parser<Point> { DoParse3(Float64(), Tag(","), Float64(), MakePoint) }

  /** The `do_parse!` version reads exactly what the tuple version reads, keeping the two numbers. */
  lemma PointFIsPointTuple(s: string)
    ensures PointF()(s) == Map(PointTuple(), (t: (real, string, real)) => Point(t.0, t.2))(s)
  {
    DoParse3IsTuple3(Float64(), Tag(","), Float64(), MakePoint, s);
    var g := (t: (real, string, real)) => MakePoint(t.0, t.2);
    var g' := (t: (real, string, real)) => Point(t.0, t.2);
    if PointTuple()(s).Done? {
      assert g(PointTuple()(s).value) == g'(PointTuple()(s).value);
    }
  }

  lemma PointTupleExample()
    ensures PointTuple()("20,52.2") == Done("", (20.0, ",", 52.2))
  {
    FirstNumber();
    Comma();
    SecondNumber();
    Tuple3Of(Float64(), Tag(","), Float64(), "20,52.2", ",52.2", "52.2", "", 20.0, ",", 52.2);
  }

  lemma PointFExample()
    ensures PointF()("20,52.2") == Done("", Point(20.0, 52.2))
  {
    PointTupleExample();
    PointFIsPointTuple("20,52.2");
  }

  lemma Comma()
    ensures Tag(",")(",52.2") == Done("52.2", ",")
  {
    assert ",52.2" == "," + "52.2";
    TagPrefix(",", "52.2");
  }

  lemma FirstNumber()
    ensures Float64()("20,52.2") == Done(",52.2", 20.0)
  {
    assert "20" + ("" + ("" + ",52.2")) == "20,52.2";
    WholeTwenty();
    Float64Over("20", "", "", ",52.2");
  }

  lemma WholeTwenty()
    ensures NumberText("20", "", "") && DecimalValue(DecimalOf("20", "", "")) == 20.0
  {
    assert Unsigned("20") == "20";
    assert DecimalOf("20", "", "") == Decimal(false, "20", 0, 0);
    assert DigitsValue("20") == 20 by {
      assert "20"[..1] == "2" && "2"[..0] == "";
    }
  }

  lemma SecondNumber()
    ensures Float64()("52.2") == Done("", 52.2)
  {
    assert "52" + (".2" + ("" + "")) == "52.2";
    FractionFiftyTwo();
    Float64Over("52", ".2", "", "");
  }

  lemma FractionFiftyTwo()
    ensures NumberText("52", ".2", "") && DecimalValue(DecimalOf("52", ".2", "")) == 52.2
  {
    assert ".2"[1..] == "2" && Unsigned("52") == "52";
    assert DecimalOf("52", ".2", "") == Decimal(false, "522", 1, 0);
    assert DigitsValue("522") == 522 by {
      assert "522"[..2] == "52" && "52"[..1] == "5" && "5"[..0] == "";
    }
  }
}
