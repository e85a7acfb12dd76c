/** `Direction` from the first enum lesson: four directions and the successor of each. */
module Directions {

  datatype Direction = Up | Down | Left | Right
  {
    /** `as_str`: the variant's own name. */
    function AsStr(): (r: string)
      ensures r != []
    {
      match this
      case Up => "Up"
      case Down => "Down"
      case Left => "Left"
      case Right => "Right"
    }

    /** `next`: a quarter turn clockwise. */
    function Next(): Direction {
      match this
      case Up => Right
      case Right => Down
      case Down => Left
      case Left => Up
    }
  }

  /** Different directions have different names, so a name tells its direction. */
  lemma AsStrInjective(a: Direction, b: Direction)
    requires a.AsStr() == b.AsStr()
    ensures a == b
  {
    assert a.AsStr()[0] == b.AsStr()[0];
    if a.AsStr()[0] == 'D' {
      assert a.AsStr()[1] == b.AsStr()[1];
    }
  }

  /** `d` after `n` steps of `next`. */
  function Steps(d: Direction, n: nat): Direction {
    if n == 0 then d else Steps(d, n - 1).Next()
  }

  /** No direction is its own successor: the machine always moves. */
  lemma NoFixedPoint(d: Direction)
    ensures d.Next() != d
    ensures d.Next().Next() != d
  {
  }

  /** Four steps come back to the start. */
  lemma FourSteps(d: Direction)
    ensures Steps(d, 4) == d
  {
  }

  /** The cycle repeats every four steps. */
  lemma {:induction false} StepsPeriodic(d: Direction, n: nat)
    ensures Steps(d, n) == Steps(d, n % 4)
  {
    if n >= 4 {
      StepsPeriodic(d, n - 4);
      StepsAdd(d, n - 4, 4);
      FourSteps(Steps(d, n - 4));
      assert (n - 4) % 4 == n % 4;
    }
  }

  lemma {:induction false} StepsAdd(d: Direction, m: nat, n: nat)
    ensures Steps(d, m + n) == Steps(Steps(d, m), n)
  {
    if n > 0 {
      StepsAdd(d, m, n - 1);
    }
  }

  /** `for _ in 0..n { println!("d {:?}", d); d = d.next(); }`: the directions printed. */
  method Cycle(start: Direction, n: nat) returns (seen: seq<Direction>)
    ensures |seen| == n
    ensures forall i :: 0 <= i < n ==> seen[i] == Steps(start, i)
  {
    var d := start;
    seen := [];
    for i := 0 to n
      invariant |seen| == i && d == Steps(start, i)
      invariant forall j :: 0 <= j < i ==> seen[j] == Steps(start, j)
    {
      seen := seen + [d];
      d := d.Next();
    }
  }

  /** Eight steps from `Left` go round twice: Left Up Right Down Left Up Right Down. */
  method Lesson() returns (seen: seq<Direction>)
    ensures seen == [Left, Up, Right, Down, Left, Up, Right, Down]
  {
    seen := Cycle(Left, 8);
    assert Steps(Left, 4) == Left by { FourSteps(Left); }
    assert Steps(Left, 7) == Down by { StepsAdd(Left, 4, 3); }
    assert seen[4..] == [Left, Up, Right, Down] by { StepsAdd(Left, 4, 1); StepsAdd(Left, 4, 2); }
    assert seen == seen[..4] + seen[4..];
  }
}

/** The C-style enums of the second enum lesson: explicit and implicit discriminants. */
module Discriminants {

  datatype Speed = Slow | Medium | Fast
  {
    /** `s as u32`. */
    function AsU32(): nat {
      match this
      case Slow => 10
      case Medium => 20
      case Fast => 50
    }

    /** The position in the declaration, which is what a derived `PartialOrd` compares. */
    function Position(): nat {
      match this
      case Slow => 0
      case Medium => 1
      case Fast => 2
    }
  }

  /** The derived `<` on `Speed`. */
  predicate SpeedLess(a: Speed, b: Speed) { a.Position() < b.Position() }

  /** Declaration order and discriminant order agree here, in both directions. */
  lemma SpeedOrderMatchesValues(a: Speed, b: Speed)
    ensures SpeedLess(a, b) <==> a.AsU32() < b.AsU32()
    ensures a == b <==> a.AsU32() == b.AsU32()
  {
  }

  /** `Speed::Fast > Speed::Slow` and `Speed::Medium != Speed::Slow`. */
  lemma SpeedExamples()
    ensures SpeedLess(Speed.Slow, Speed.Fast) && Speed.Medium != Speed.Slow
    ensures Speed.Slow.AsU32() == 10
  {
  }

  datatype Difficulty = Easy | Medium | Hard
  {
    function Position(): nat {
      match this
      case Easy => 0
      case Medium => 1
      case Hard => 2
    }

    /** `Easy = 1`; each later variant without a value takes one more than the one before. */
    function AsU32(): (r: nat)
      ensures r == 1 + Position()
    {
      match this
      case Easy => 1
      case Medium => 2
      case Hard => 3
    }
  }

  /** Each unvalued variant is its predecessor's value plus one. */
  lemma DifficultyIncrements(a: Difficulty, b: Difficulty)
    requires b.Position() == a.Position() + 1
    ensures b.AsU32() == a.AsU32() + 1
  {
  }
}

/** `Value` from the third enum lesson: one of a number, a string or a boolean. */
module Values {
  import opened Text

  datatype Value = Number(n: real) | Str(s: string) | Bool(b: bool)
  {
    /** `to_str`, written with `match`: the string of a `Str`, nothing otherwise. */
    function ToStr(): (r: Option<string>)
      ensures r.Some? <==> this.Str?
      ensures this.Str? ==> r == Some(this.s)
    {
      match this
      case Str(s) => Some(s)
      case _ => None
    }

    /** `to_str`, written with `if let`. */
    function ToStrIfLet(): (r: Option<string>)
      ensures r.Some? ==> this == Str(r.value)
    {
      if this.Str? then Some(this.s) else None
    }
  }

  /** The two ways of writing `to_str` agree on every value. */
  lemma ToStrSame(v: Value)
    ensures v.ToStr() == v.ToStrIfLet()
  {
  }

  /** A value holds exactly one kind of thing. */
  lemma OneVariant(v: Value)
    ensures (v.Number? && !v.Str? && !v.Bool?) || (!v.Number? && v.Str? && !v.Bool?) || (!v.Number? && !v.Str? && v.Bool?)
  {
  }

  /** `Str("hello").to_str()` is `Some("hello")`; numbers and booleans give `None`. */
  lemma ToStrExamples()
    ensures Str("hello").ToStr() == Some("hello")
    ensures Number(2.3).ToStr() == None && Bool(true).ToStr() == None
  {
  }
}
