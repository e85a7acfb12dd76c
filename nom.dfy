/** The error kinds a parser reports, named as nom names them. */
module NomError {
  datatype ErrorKind = TagStr | Alt | Digit | Alpha | Complete | MapRes | Many0 | Many1
}

/**
 * The parser combinators the nom lessons use, as functions from the input text
 * to a three-way result. A parser never mutates anything: it returns the
 * unconsumed remainder of its input along with its value.
 */
module Nom {
  import opened Text
  import NomError

  /** `Done`: success with the remainder and a value; `Error`: this input can never match;
      `Incomplete`: the input is a prefix of something that could still match. */
  datatype IResult<T> = Done(rest: string, value: T) | Error(kind: NomError.ErrorKind) | Incomplete

  type Parser<T> = string -> IResult<T>

  /** `r` is what is left of `s` after consuming a prefix. */
  predicate IsSuffix(r: string, s: string) {
    |r| <= |s| && s[|s| - |r|..] == r
  }

  /** Every remainder `p` returns is a suffix of its input. */
  ghost predicate Consumes<T>(p: Parser<T>) {
    forall s :: p(s).Done? ==> IsSuffix(p(s).rest, s)
  }

  /** `p` consumes and, on success, always consumes at least one character. */
  ghost predicate Advances<T>(p: Parser<T>) {
    Consumes(p) && forall s :: p(s).Done? ==> |p(s).rest| < |s|
  }

  /** Passes a failure on unchanged at another value type. */
  function Fail<A, B>(r: IResult<A>): (f: IResult<B>)
    requires !r.Done?
    ensures f.Error? == r.Error? && (f.Error? ==> f.kind == r.kind)
  {
    match r
    case Error(k) => Error(k)
    case Incomplete => Incomplete
  }

  // ---------------------------------------------------------------------------
  // Primitive parsers

  /** `tag_s!(t)`: the literal `t` at the start of the input. */
  function Tag(t: string): Parser<string> {
    s =>
      if |t| <= |s| && s[..|t|] == t then Done(s[|t|..], t)
      else if |s| < |t| && s == t[..|s|] then Incomplete
      else Error(NomError.TagStr)
  }

  /** The length of the longest prefix of `s` whose characters are all in `inClass`. */
  function Span(s: string, inClass: char -> bool): (n: nat)
    ensures n <= |s|
    ensures forall i :: 0 <= i < n ==> inClass(s[i])
    ensures n < |s| ==> !inClass(s[n])
  {
    if s == [] || !inClass(s[0]) then 0 else 1 + Span(s[1..], inClass)
  }

  /** A non-empty run of characters of `inClass`; on empty input more could still come. */
  function Run(inClass: char -> bool, kind: NomError.ErrorKind): Parser<string> {
    s =>
      if s == [] then Incomplete
      else if !inClass(s[0]) then Error(kind)
      else Done(s[Span(s, inClass)..], s[..Span(s, inClass)])
  }

  /** `digit`: one or more decimal digits. */
  function Digit(): Parser<string> { Run(IsDigit, NomError.Digit) }

  /** `alpha`: one or more letters. */
  function Alpha(): Parser<string> { Run(IsAlpha, NomError.Alpha) }

  /** The input without its leading spaces, tabs and line breaks. */
  function SkipSpace(s: string): (r: string)
    ensures IsSuffix(r, s)
    ensures r != [] ==> !IsSpace(r[0])
  {
    if s != [] && IsSpace(s[0]) then
      var r := SkipSpace(s[1..]);
      SuffixOfTail(r, s);
      r
    else s
  }

  predicate AllSpace(s: string) { forall i :: 0 <= i < |s| ==> IsSpace(s[i]) }

  /** Whitespace in front of text that does not start with whitespace is skipped exactly. */
  lemma {:induction false} SkipSpaceOver(sp: string, t: string)
    requires AllSpace(sp) && (t == [] || !IsSpace(t[0]))
    ensures SkipSpace(sp + t) == t
  {
    if sp != [] {
      assert (sp + t)[1..] == sp[1..] + t;
      SkipSpaceOver(sp[1..], t);
    }
  }

  /** A suffix of the tail is a suffix of the whole. */
  lemma SuffixOfTail(r: string, s: string)
    requires s != [] && IsSuffix(r, s[1..])
    ensures IsSuffix(r, s)
  {
    assert s[|s| - |r|..] == s[1..][|s| - 1 - |r|..];
  }

  /** Being a suffix is transitive. */
  lemma SuffixTrans(a: string, b: string, c: string)
    requires IsSuffix(a, b) && IsSuffix(b, c)
    ensures IsSuffix(a, c)
  {
    assert c[|c| - |a|..] == c[|c| - |b|..][|b| - |a|..];
  }

  // ---------------------------------------------------------------------------
  // Combinators

  /** `ws!(p)`: skips whitespace before and after `p`; skipping itself never fails. */
  function Ws<T>(p: Parser<T>): Parser<T> {
    s =>
      match p(SkipSpace(s))
      case Done(r, v) => Done(SkipSpace(r), v)
      case f => Fail(f)
  }

  /**
   * `alt!(p | q)`: both alternatives start at the same input and the first
   * success wins. An undecided alternative makes the whole undecided unless the
   * other one succeeds.
   */
  function Alt<T>(p: Parser<T>, q: Parser<T>): Parser<T> {
    s =>
      match p(s)
      case Done(_, _) => p(s)
      case Error(_) => (if q(s).Error? then Error(NomError.Alt) else q(s))
      case Incomplete => (if q(s).Done? then q(s) else Incomplete)
  }

  /** `pair!(p, q)`: `q` runs on what `p` left; the first failure is the result. */
  function Pair<A, B>(p: Parser<A>, q: Parser<B>): Parser<(A, B)> {
    s =>
      match p(s)
      case Done(r, a) =>
        (match q(r)
         case Done(r', b) => Done(r', (a, b))
         case f => Fail(f))
      case f => Fail(f)
  }

  /** `tuple!(p, q, u)`. */
  function Tuple3<A, B, C>(p: Parser<A>, q: Parser<B>, u: Parser<C>): Parser<(A, B, C)> {
    Map(Pair(p, Pair(q, u)), (t: (A, (B, C))) => (t.0, t.1.0, t.1.1))
  }

  /** `opt!(p)`: a failure of `p` becomes `None` without consuming; undecided stays undecided. */
  function Opt<T>(p: Parser<T>): Parser<Option<T>> {
    s =>
      match p(s)
      case Done(r, v) => Done(r, Some(v))
      case Error(_) => Done(s, None)
      case Incomplete => Incomplete
  }

  /** `complete!(p)`: no more input will come, so undecided means failed. */
  function Complete<T>(p: Parser<T>): Parser<T> {
    s => if p(s).Incomplete? then Error(NomError.Complete) else p(s)
  }

  /** `map!(p, f)`. */
  function Map<A, B>(p: Parser<A>, f: A -> B): Parser<B> {
    s =>
      match p(s)
      case Done(r, v) => Done(r, f(v))
      case g => Fail(g)
  }

  /** `map_res!(p, f)`: a failed conversion fails the parse. */
  function MapRes<A, B>(p: Parser<A>, f: A -> Option<B>): Parser<B> {
    s =>
      match p(s)
      case Done(r, v) => (if f(v).Some? then Done(r, f(v).value) else Error(NomError.MapRes))
      case g => Fail(g)
  }

  /** `recognize!(p)`: the text `p` consumed instead of `p`'s value. */
  function Recognize<T>(p: Parser<T>): Parser<string>
    requires Consumes(p)
  {
    s =>
      match p(s)
      case Done(r, _) => Done(r, s[..|s| - |r|])
      case f => Fail(f)
  }

  /** `delimited!(o, p, c)`: only the middle value is kept. */
  function Delimited<A, B, C>(o: Parser<A>, p: Parser<B>, c: Parser<C>): Parser<B> {
    Map(Tuple3(o, p, c), (t: (A, B, C)) => t.1)
  }

  /** `do_parse!(x: p >> k(x))`: the second parser depends on the first value. */
  function Then<A, B>(p: Parser<A>, k: A -> Parser<B>): Parser<B> {
    s =>
      match p(s)
      case Done(r, v) => k(v)(r)
      case f => Fail(f)
  }

  /**
   * `do_parse!(a: p >> q >> c: u >> (h(a, c)))`: three parsers in sequence, the
   * middle one's value dropped, the result built from the other two.
   */
  function DoParse3<A, B, C, D>(p: Parser<A>, q: Parser<B>, u: Parser<C>, h: (A, C) -> D): Parser<D> {
    Then(p, (a: A) => Then(q, (_: B) => Map(u, (c: C) => h(a, c))))
  }

  /**
   * The loop of `fold_many0!`: stops with the accumulator at end of input or
   * when `p` fails; an undecided `p` leaves the fold undecided; a match that
   * consumes nothing is an error (it would loop forever).
   */
  function FoldLoop<A, B>(p: Parser<A>, acc: B, f: (B, A) -> B, s: string): IResult<B>
    decreases |s|
  {
    if s == [] then Done(s, acc)
    else
      match p(s)
      case Error(_) => Done(s, acc)
      case Incomplete => Incomplete
      case Done(r, v) => if |r| >= |s| then Error(NomError.Many0) else FoldLoop(p, f(acc, v), f, r)
  }

  /** `fold_many0!(p, init, f)`. */
  function FoldMany0<A, B>(p: Parser<A>, init: B, f: (B, A) -> B): Parser<B> {
    s => FoldLoop(p, init, f, s)
  }

  /** `fold_many1!(p, init, f)`: as fold_many0, but the first match is required. */
  function FoldMany1<A, B>(p: Parser<A>, init: B, f: (B, A) -> B): Parser<B> {
    s =>
      match p(s)
      case Error(_) => Error(NomError.Many1)
      case Incomplete => Incomplete
      case Done(r, v) => if |r| >= |s| then Error(NomError.Many1) else FoldLoop(p, f(init, v), f, r)
  }

  /** `many1!(p)`: the matched values, in input order. */
  function Many1<A>(p: Parser<A>): Parser<seq<A>> {
    FoldMany1(p, [], Snoc)
  }

  function Snoc<A>(acc: seq<A>, v: A): seq<A> { acc + [v] }

  /** `to_result()`: the value of a success, dropping the remainder. */
  datatype ParseError = Failed(kind: NomError.ErrorKind) | NeedMoreInput
  datatype Result<T> = Ok(value: T) | Err(error: ParseError)

  function ToResult<T>(r: IResult<T>): (res: Result<T>)
    ensures res.Ok? <==> r.Done?
    ensures r.Done? ==> res.value == r.value
    ensures r.Error? ==> res == Err(Failed(r.kind))
    ensures r.Incomplete? ==> res == Err(NeedMoreInput)
  {
    match r
    case Done(_, v) => Ok(v)
    case Error(k) => Err(Failed(k))
    case Incomplete => Err(NeedMoreInput)
  }

  // ---------------------------------------------------------------------------
  // What the combinators promise

  /** `tag` succeeds exactly on inputs that start with the literal, returns the literal and
      leaves the rest; it is undecided exactly on proper prefixes of the literal. */
  lemma TagSpec(t: string, s: string)
    ensures Tag(t)(s).Done? <==> |t| <= |s| && s[..|t|] == t
    ensures Tag(t)(s).Done? ==> Tag(t)(s).value == t && t + Tag(t)(s).rest == s
    ensures Tag(t)(s).Incomplete? <==> |s| < |t| && s == t[..|s|]
  {
    if |t| <= |s| && s[..|t|] == t {
      assert t + s[|t|..] == s;
    }
  }

  lemma TagPrefix(t: string, r: string)
    ensures Tag(t)(t + r) == Done(r, t)
  {
    assert (t + r)[..|t|] == t && (t + r)[|t|..] == r;
  }

  lemma ConsumesTag(t: string)
    ensures Consumes(Tag(t))
  {
  }

  /** `digit`/`alpha` take the longest non-empty run of the class: the run and the rest
      rebuild the input, and the rest does not start with the class. */
  lemma RunSpec(inClass: char -> bool, kind: NomError.ErrorKind, s: string)
    ensures Run(inClass, kind)(s).Done? <==> s != [] && inClass(s[0])
    ensures Run(inClass, kind)(s).Incomplete? <==> s == []
    ensures s != [] && !inClass(s[0]) ==> Run(inClass, kind)(s) == Error(kind)
    ensures Run(inClass, kind)(s).Done? ==>
      var Done(r, v) := Run(inClass, kind)(s);
      v != [] && v + r == s && (forall i :: 0 <= i < |v| ==> inClass(v[i])) && (r != [] ==> !inClass(r[0]))
  {
    if s != [] && inClass(s[0]) {
      var n := Span(s, inClass);
      assert s[..n] + s[n..] == s;
    }
  }

  /** A run of the class followed by text that does not continue it. */
  lemma {:induction false} SpanOver(inClass: char -> bool, w: string, r: string)
    requires forall i :: 0 <= i < |w| ==> inClass(w[i])
    requires r == [] || !inClass(r[0])
    ensures Span(w + r, inClass) == |w|
  {
    if w != [] {
      assert (w + r)[1..] == w[1..] + r;
      SpanOver(inClass, w[1..], r);
    }
  }

  lemma RunOver(inClass: char -> bool, kind: NomError.ErrorKind, w: string, r: string)
    requires w != [] && forall i :: 0 <= i < |w| ==> inClass(w[i])
    requires r == [] || !inClass(r[0])
    ensures Run(inClass, kind)(w + r) == Done(r, w)
  {
    SpanOver(inClass, w, r);
    assert (w + r)[..|w|] == w && (w + r)[|w|..] == r;
  }

  lemma AdvancesRun(inClass: char -> bool, kind: NomError.ErrorKind)
    ensures Advances(Run(inClass, kind))
  {
  }

  lemma ConsumesWs<T>(p: Parser<T>)
    requires Consumes(p)
    ensures Consumes(Ws(p))
  {
    forall s | Ws(p)(s).Done? ensures IsSuffix(Ws(p)(s).rest, s) {
      var s' := SkipSpace(s);
      var r := p(s').rest;
      SuffixTrans(r, s', s);
      SuffixTrans(SkipSpace(r), r, s);
    }
  }

  /** After `ws!` the remainder never starts with whitespace. */
  lemma WsSkips<T>(p: Parser<T>, s: string)
    ensures Ws(p)(s).Done? ==> Ws(p)(s).rest == [] || !IsSpace(Ws(p)(s).rest[0])
    ensures Ws(p)(s).Done? <==> p(SkipSpace(s)).Done?
  {
    if p(SkipSpace(s)).Done? {
      assert Ws(p)(s).rest == SkipSpace(p(SkipSpace(s)).rest);
    }
  }

  /** `alt` fails outright only when both alternatives fail outright, and succeeds when
      either succeeds, preferring the first. */
  lemma AltSpec<T>(p: Parser<T>, q: Parser<T>, s: string)
    ensures Alt(p, q)(s).Done? <==> p(s).Done? || q(s).Done?
    ensures Alt(p, q)(s).Error? <==> p(s).Error? && q(s).Error?
    ensures Alt(p, q)(s).Done? ==> Alt(p, q)(s) == (if p(s).Done? then p(s) else q(s))
  {
  }

  lemma ConsumesAlt<T>(p: Parser<T>, q: Parser<T>)
    requires Consumes(p) && Consumes(q)
    ensures Consumes(Alt(p, q))
  {
  }

  /** `pair!` when both halves succeed. */
  lemma PairDone<A, B>(p: Parser<A>, q: Parser<B>, s: string)
    requires p(s).Done? && q(p(s).rest).Done?
    ensures Pair(p, q)(s) == Done(q(p(s).rest).rest, (p(s).value, q(p(s).rest).value))
  {
  }

  /** `pair!` succeeds only when both parsers succeed, the second on what the first left. */
  lemma PairParts<A, B>(p: Parser<A>, q: Parser<B>, s: string)
    requires Pair(p, q)(s).Done?
    ensures p(s).Done? && q(p(s).rest).Done?
    ensures Pair(p, q)(s) == Done(q(p(s).rest).rest, (p(s).value, q(p(s).rest).value))
  {
  }

  /** `tuple!` succeeds when its three parsers succeed one after the other. */
  lemma Tuple3Done<A, B, C>(p: Parser<A>, q: Parser<B>, u: Parser<C>, s: string)
    requires p(s).Done? && q(p(s).rest).Done? && u(q(p(s).rest).rest).Done?
    ensures Tuple3(p, q, u)(s) ==
      Done(u(q(p(s).rest).rest).rest, (p(s).value, q(p(s).rest).value, u(q(p(s).rest).rest).value))
  {
    PairDone(q, u, p(s).rest);
    PairDone(p, Pair(q, u), s);
  }

  /** `tuple!` over three matches given by their remainders and values. */
  lemma Tuple3Of<A, B, C>(p: Parser<A>, q: Parser<B>, u: Parser<C>, s: string, r1: string, r2: string, r3: string, a: A, b: B, c: C)
    requires p(s) == Done(r1, a) && q(r1) == Done(r2, b) && u(r2) == Done(r3, c)
    ensures Tuple3(p, q, u)(s) == Done(r3, (a, b, c))
  {
    Tuple3Done(p, q, u, s);
  }

  /** When `tuple!` succeeds, so did each of its parsers, and the last one's remainder is the remainder. */
  lemma Tuple3Parts<A, B, C>(p: Parser<A>, q: Parser<B>, u: Parser<C>, s: string)
    requires Tuple3(p, q, u)(s).Done?
    ensures p(s).Done? && q(p(s).rest).Done? && u(q(p(s).rest).rest).Done?
    ensures Tuple3(p, q, u)(s).rest == u(q(p(s).rest).rest).rest
  {
    assert Pair(p, Pair(q, u))(s).Done?;
    assert p(s).Done?;
    assert Pair(q, u)(p(s).rest).Done?;
  }

  lemma ConsumesPair<A, B>(p: Parser<A>, q: Parser<B>)
    requires Consumes(p) && Consumes(q)
    ensures Consumes(Pair(p, q))
  {
    forall s | Pair(p, q)(s).Done? ensures IsSuffix(Pair(p, q)(s).rest, s) {
      var r := p(s).rest;
      SuffixTrans(q(r).rest, r, s);
    }
  }

  lemma ConsumesMap<A, B>(p: Parser<A>, f: A -> B)
    requires Consumes(p)
    ensures Consumes(Map(p, f))
  {
  }

  lemma ConsumesMapRes<A, B>(p: Parser<A>, f: A -> Option<B>)
    requires Consumes(p)
    ensures Consumes(MapRes(p, f))
  {
  }

  lemma ConsumesTuple3<A, B, C>(p: Parser<A>, q: Parser<B>, u: Parser<C>)
    requires Consumes(p) && Consumes(q) && Consumes(u)
    ensures Consumes(Tuple3(p, q, u))
  {
    ConsumesPair(q, u);
    ConsumesPair(p, Pair(q, u));
    ConsumesMap(Pair(p, Pair(q, u)), (t: (A, (B, C))) => (t.0, t.1.0, t.1.1));
  }

  lemma ConsumesDelimited<A, B, C>(o: Parser<A>, p: Parser<B>, c: Parser<C>)
    requires Consumes(o) && Consumes(p) && Consumes(c)
    ensures Consumes(Delimited(o, p, c))
  {
    ConsumesTuple3(o, p, c);
    ConsumesMap(Tuple3(o, p, c), (t: (A, B, C)) => t.1);
  }

  lemma ConsumesOpt<T>(p: Parser<T>)
    requires Consumes(p)
    ensures Consumes(Opt(p))
  {
  }

  lemma ConsumesComplete<T>(p: Parser<T>)
    requires Consumes(p)
    ensures Consumes(Complete(p))
  {
  }

  lemma RecognizeDone<T>(p: Parser<T>, s: string)
    requires Consumes(p) && p(s).Done?
    ensures Recognize(p)(s) == Done(p(s).rest, s[..|s| - |p(s).rest|])
  {
  }

  lemma ConsumesRecognize<T>(p: Parser<T>)
    requires Consumes(p)
    ensures Consumes(Recognize(p))
  {
  }

  lemma ConsumesThen<A, B>(p: Parser<A>, k: A -> Parser<B>)
    requires Consumes(p) && forall v :: Consumes(k(v))
    ensures Consumes(Then(p, k))
  {
    forall s | Then(p, k)(s).Done? ensures IsSuffix(Then(p, k)(s).rest, s) {
      var Done(r, v) := p(s);
      assert Consumes(k(v));
      SuffixTrans(k(v)(r).rest, r, s);
    }
  }

  /** `complete!` never leaves the outcome undecided, and otherwise changes nothing. */
  lemma CompleteDecides<T>(p: Parser<T>, s: string)
    ensures !Complete(p)(s).Incomplete?
    ensures Complete(p)(s).Done? <==> p(s).Done?
    ensures p(s).Done? ==> Complete(p)(s) == p(s)
  {
  }

  /** `opt!(complete!(p))` always succeeds: with `p`'s value, or with `None` and nothing consumed. */
  lemma OptCompleteSucceeds<T>(p: Parser<T>, s: string)
    ensures Opt(Complete(p))(s).Done?
    ensures p(s).Done? ==> Opt(Complete(p))(s) == Done(p(s).rest, Some(p(s).value))
    ensures !p(s).Done? ==> Opt(Complete(p))(s) == Done(s, None)
  {
  }

  /** `opt!` turns an outright failure into `None` without consuming, and keeps a success. */
  lemma OptSpec<T>(p: Parser<T>, s: string)
    ensures p(s).Error? ==> Opt(p)(s) == Done(s, None)
    ensures p(s).Done? ==> Opt(p)(s) == Done(p(s).rest, Some(p(s).value))
    ensures Opt(p)(s).Incomplete? <==> p(s).Incomplete?
  {
  }

  /** `recognize!` returns the consumed text: it and the remainder rebuild the input. */
  lemma RecognizeSpec<T>(p: Parser<T>, s: string)
    requires Consumes(p)
    ensures Recognize(p)(s).Done? <==> p(s).Done?
    ensures p(s).Done? ==> Recognize(p)(s).rest == p(s).rest && Recognize(p)(s).value + p(s).rest == s
  {
    if p(s).Done? {
      var r := p(s).rest;
      assert s[..|s| - |r|] + s[|s| - |r|..] == s;
    }
  }

  lemma {:induction false} ConsumesFoldLoop<A, B>(p: Parser<A>, acc: B, f: (B, A) -> B, s: string)
    requires Consumes(p)
    ensures FoldLoop(p, acc, f, s).Done? ==> IsSuffix(FoldLoop(p, acc, f, s).rest, s)
    decreases |s|
  {
    if s != [] && p(s).Done? && |p(s).rest| < |s| {
      var Done(r, v) := p(s);
      ConsumesFoldLoop(p, f(acc, v), f, r);
      if FoldLoop(p, f(acc, v), f, r).Done? {
        SuffixTrans(FoldLoop(p, f(acc, v), f, r).rest, r, s);
      }
    }
  }

  lemma ConsumesFoldMany0<A, B>(p: Parser<A>, init: B, f: (B, A) -> B)
    requires Consumes(p)
    ensures Consumes(FoldMany0(p, init, f))
  {
    forall s ensures FoldMany0(p, init, f)(s).Done? ==> IsSuffix(FoldMany0(p, init, f)(s).rest, s) {
      ConsumesFoldLoop(p, init, f, s);
    }
  }

  lemma ConsumesFoldMany1<A, B>(p: Parser<A>, init: B, f: (B, A) -> B)
    requires Consumes(p)
    ensures Consumes(FoldMany1(p, init, f))
  {
    forall s | FoldMany1(p, init, f)(s).Done? ensures IsSuffix(FoldMany1(p, init, f)(s).rest, s) {
      var Done(r, v) := p(s);
      ConsumesFoldLoop(p, f(init, v), f, r);
      SuffixTrans(FoldLoop(p, f(init, v), f, r).rest, r, s);
    }
  }

  /** A fold stops only at the end of the input or where the item parser fails outright. */
  lemma {:induction false} FoldLoopStops<A, B>(p: Parser<A>, acc: B, f: (B, A) -> B, s: string)
    ensures FoldLoop(p, acc, f, s).Done? ==>
      FoldLoop(p, acc, f, s).rest == [] || p(FoldLoop(p, acc, f, s).rest).Error?
    decreases |s|
  {
    if s != [] && p(s).Done? && |p(s).rest| < |s| {
      FoldLoopStops(p, f(acc, p(s).value), f, p(s).rest);
    }
  }

  /** `fold_many1!` needs a first match: where the item parser does not succeed, neither does the fold. */
  lemma FoldMany1NeedsOne<A, B>(p: Parser<A>, init: B, f: (B, A) -> B, s: string)
    ensures !p(s).Done? ==> !FoldMany1(p, init, f)(s).Done?
    ensures p(s).Error? ==> FoldMany1(p, init, f)(s) == Error(NomError.Many1)
  {
  }

  /** Collecting never drops a value already collected. */
  lemma {:induction false} CollectKeeps<A>(p: Parser<A>, acc: seq<A>, s: string)
    ensures FoldLoop(p, acc, Snoc, s).Done? ==> acc <= FoldLoop(p, acc, Snoc, s).value
    decreases |s|
  {
    if s != [] && p(s).Done? && |p(s).rest| < |s| {
      CollectKeeps(p, acc + [p(s).value], p(s).rest);
    }
  }

  /** `many1!` collects at least one value, the first match's value first, and fails with `Many1` where the first match fails. */
  lemma Many1Spec<A>(p: Parser<A>, s: string)
    ensures Many1(p)(s).Done? ==> p(s).Done? && |Many1(p)(s).value| >= 1 && Many1(p)(s).value[0] == p(s).value
    ensures p(s).Error? ==> Many1(p)(s) == Error(NomError.Many1)
  {
    if p(s).Done? && |p(s).rest| < |s| {
      assert Snoc([], p(s).value) == [p(s).value];
      CollectKeeps(p, [p(s).value], p(s).rest);
    }
  }

  /** The left fold of `f` over a list of values. */
  function FoldLeft<A, B>(f: (B, A) -> B, acc: B, vs: seq<A>): B
    decreases |vs|
  {
    if vs == [] then acc else FoldLeft(f, f(acc, vs[0]), vs[1..])
  }

  lemma {:induction false} FoldLeftSnoc<A, B>(f: (B, A) -> B, acc: B, vs: seq<A>, v: A)
    ensures FoldLeft(f, acc, vs + [v]) == f(FoldLeft(f, acc, vs), v)
    decreases |vs|
  {
    if vs != [] {
      assert (vs + [v])[1..] == vs[1..] + [v];
      FoldLeftSnoc(f, f(acc, vs[0]), vs[1..], v);
    }
  }

  /** Folding as the input is read is the same as collecting the values and folding the list. */
  lemma {:induction false} FoldLoopFusion<A, B>(p: Parser<A>, f: (B, A) -> B, init: B, vs: seq<A>, s: string)
    ensures FoldLoop(p, FoldLeft(f, init, vs), f, s) ==
      match FoldLoop(p, vs, Snoc, s)
      case Done(r, ws) => Done(r, FoldLeft(f, init, ws))
      case g => Fail(g)
    decreases |s|
  {
    if s != [] && p(s).Done? && |p(s).rest| < |s| {
      var Done(r, v) := p(s);
      FoldLeftSnoc(f, init, vs, v);
      FoldLoopFusion(p, f, init, vs + [v], r);
    }
  }

  /** `fold_many1!(p, init, f)` gives the left fold of `f` over the values `many1!(p)` collects. */
  lemma FoldMany1IsFoldOfMany1<A, B>(p: Parser<A>, init: B, f: (B, A) -> B, s: string)
    ensures FoldMany1(p, init, f)(s) == Map(Many1(p), (vs: seq<A>) => FoldLeft(f, init, vs))(s)
  {
    match p(s)
    case Error(_) =>
      assert Many1(p)(s) == Error(NomError.Many1);
    case Incomplete =>
      assert Many1(p)(s) == Incomplete;
    case Done(r, v) =>
      if |r| < |s| {
        var g := (vs: seq<A>) => FoldLeft(f, init, vs);
        assert FoldLeft(f, init, [v]) == f(init, v);
        assert FoldMany1(p, init, f)(s) == FoldLoop(p, f(init, v), f, r);
        assert Snoc([], v) == [v];
        assert Many1(p)(s) == FoldLoop(p, [v], Snoc, r);
        FoldLoopFusion(p, f, init, [v], r);
        match FoldLoop(p, [v], Snoc, r)
        case Done(r', ws) =>
          assert Map(Many1(p), g)(s) == Done(r', g(ws));
        case h =>
          assert Map(Many1(p), g)(s) == Fail(h);
      } else {
        assert Many1(p)(s) == Error(NomError.Many1);
      }
  }

  /** A fold reads nothing longer than its input, so item parsers that agree on such inputs
      give the same fold. */
  lemma {:induction false} FoldLoopCongruence<A, B>(p: Parser<A>, q: Parser<A>, acc: B, f: (B, A) -> B, s: string)
    requires forall t :: |t| <= |s| ==> p(t) == q(t)
    ensures FoldLoop(p, acc, f, s) == FoldLoop(q, acc, f, s)
    decreases |s|
  {
    if s != [] && p(s).Done? && |p(s).rest| < |s| {
      FoldLoopCongruence(p, q, f(acc, p(s).value), f, p(s).rest);
    }
  }

  /** `do_parse!` over three parsers reads what `tuple!` reads and builds its value from the first and last. */
  lemma DoParse3IsTuple3<A, B, C, D>(p: Parser<A>, q: Parser<B>, u: Parser<C>, h: (A, C) -> D, s: string)
    ensures DoParse3(p, q, u, h)(s) == Map(Tuple3(p, q, u), (t: (A, B, C)) => h(t.0, t.2))(s)
  {
    if p(s).Done? && q(p(s).rest).Done? && u(q(p(s).rest).rest).Done? {
      Tuple3Done(p, q, u, s);
    } else if !p(s).Done? {
      var pairs := Pair(p, Pair(q, u))(s);
      assert pairs == Fail(p(s));
      assert Tuple3(p, q, u)(s) == Fail(pairs);
      assert DoParse3(p, q, u, h)(s) == Fail(p(s));
    } else if !q(p(s).rest).Done? {
      var r := p(s).rest;
      var inner := Pair(q, u)(r);
      assert inner == Fail(q(r));
      var pairs := Pair(p, Pair(q, u))(s);
      assert pairs == Fail(inner);
      assert Tuple3(p, q, u)(s) == Fail(pairs);
      assert DoParse3(p, q, u, h)(s) == Fail(q(r));
    } else {
      var r := q(p(s).rest).rest;
      var inner := Pair(q, u)(p(s).rest);
      assert inner == Fail(u(r));
      var pairs := Pair(p, Pair(q, u))(s);
      assert pairs == Fail(inner);
      assert Tuple3(p, q, u)(s) == Fail(pairs);
      assert DoParse3(p, q, u, h)(s) == Fail(u(r));
    }
  }

  /** One successful, advancing match: the loop goes on from its remainder with the accumulator updated. */
  lemma FoldLoopStep<A, B>(p: Parser<A>, acc: B, f: (B, A) -> B, s: string, r: string, v: A)
    requires p(s) == Done(r, v) && |r| < |s|
    ensures FoldLoop(p, acc, f, s) == FoldLoop(p, f(acc, v), f, r)
  {
  }

  /** The first match of `fold_many1!`, when it advances. */
  lemma FoldMany1Step<A, B>(p: Parser<A>, init: B, f: (B, A) -> B, s: string, r: string, v: A)
    requires p(s) == Done(r, v) && |r| < |s|
    ensures FoldMany1(p, init, f)(s) == FoldLoop(p, f(init, v), f, r)
  {
  }

  /** `alt!` depends on its second alternative only through that alternative's result here. */
  lemma AltCongruence<T>(p: Parser<T>, q1: Parser<T>, q2: Parser<T>, s: string)
    requires q1(s) == q2(s)
    ensures Alt(p, q1)(s) == Alt(p, q2)(s)
  {
  }

  lemma WsCongruence<T>(p: Parser<T>, q: Parser<T>, s: string)
    requires p(SkipSpace(s)) == q(SkipSpace(s))
    ensures Ws(p)(s) == Ws(q)(s)
  {
  }

  /** `delimited!` depends on its middle parser only through its result after the opening match. */
  lemma DelimitedCongruence<A, B, C>(o: Parser<A>, e1: Parser<B>, e2: Parser<B>, c: Parser<C>, s: string)
    requires o(s).Done? ==> e1(o(s).rest) == e2(o(s).rest)
    ensures Delimited(o, e1, c)(s) == Delimited(o, e2, c)(s)
  {
    if o(s).Done? {
      assert Pair(e1, c)(o(s).rest) == Pair(e2, c)(o(s).rest);
    }
    assert Pair(o, Pair(e1, c))(s) == Pair(o, Pair(e2, c))(s);
  }

  /** `ws!(p)` from the parts: the spaces skipped before, `p`'s match, the spaces skipped after. */
  lemma WsOf<T>(p: Parser<T>, s: string, t: string, r: string, r': string, v: T)
    requires SkipSpace(s) == t && p(t) == Done(r, v) && SkipSpace(r) == r'
    ensures Ws(p)(s) == Done(r', v)
  {
  }

  lemma MapOf<A, B>(p: Parser<A>, f: A -> B, s: string, r: string, v: A)
    requires p(s) == Done(r, v)
    ensures Map(p, f)(s) == Done(r, f(v))
  {
  }

  /** `delimited!` over three matches given by their remainders and values. */
  lemma DelimitedOf<A, B, C>(o: Parser<A>, e: Parser<B>, c: Parser<C>, s: string, r1: string, r2: string, r3: string, a: A, b: B, d: C)
    requires o(s) == Done(r1, a) && e(r1) == Done(r2, b) && c(r2) == Done(r3, d)
    ensures Delimited(o, e, c)(s) == Done(r3, b)
  {
    Tuple3Of(o, e, c, s, r1, r2, r3, a, b, d);
  }

  /** The first alternative matched. */
  lemma AltFirst<T>(p: Parser<T>, q: Parser<T>, s: string)
    requires p(s).Done?
    ensures Alt(p, q)(s) == p(s)
  {
  }

  /** The first alternative did not match and the second did. */
  lemma AltSecond<T>(p: Parser<T>, q: Parser<T>, s: string)
    requires !p(s).Done? && q(s).Done?
    ensures Alt(p, q)(s) == q(s)
  {
  }
}
