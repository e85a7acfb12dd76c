/**
 * The arithmetic evaluator of the sixth nom lesson. A factor is a number or a
 * parenthesised expression, a term folds `*` and `/` over factors, an
 * expression folds `+` and `-` over terms, and the folds compute the value as
 * they go.
 */
module Arithmetic {
  import opened Text
  import opened Nom
  import NomError
  import opened Numbers

  // ---------------------------------------------------------------------------
  // Values

  /**
   * The value of an expression: an exact real, or the result of a division by
   * zero. Every operation on a non-finite value stays non-finite.
   */
  datatype Num = Finite(value: real) | NonFinite

  function ToNum(x: real): Num { Finite(x) }

  function Times(a: Num, b: Num): (r: Num)
    ensures r.Finite? <==> a.Finite? && b.Finite?
    ensures r.Finite? ==> r.value == a.value * b.value
  {
    if a.Finite? && b.Finite? then Finite(a.value * b.value) else NonFinite
  }

  function Divide(a: Num, b: Num): (r: Num)
    ensures r.Finite? <==> a.Finite? && b.Finite? && b.value != 0.0
    ensures r.Finite? ==> r.value * b.value == a.value
    ensures b.Finite? && b.value != 0.0 ==> Times(r, b) == a
  {
    if a.Finite? && b.Finite? && b.value != 0.0 then Finite(a.value / b.value) else NonFinite
  }

  function Plus(a: Num, b: Num): (r: Num)
    ensures r.Finite? <==> a.Finite? && b.Finite?
    ensures r.Finite? ==> r.value == a.value + b.value
  {
    if a.Finite? && b.Finite? then Finite(a.value + b.value) else NonFinite
  }

  function Minus(a: Num, b: Num): (r: Num)
    ensures r.Finite? <==> a.Finite? && b.Finite?
    ensures r.Finite? ==> r.value == a.value - b.value
    ensures b.Finite? ==> Plus(r, b) == a
  {
    if a.Finite? && b.Finite? then Finite(a.value - b.value) else NonFinite
  }

  /** `+` and `*` do not depend on the order of their operands. */
  lemma Commute(a: Num, b: Num)
    ensures Plus(a, b) == Plus(b, a)
    ensures Times(a, b) == Times(b, a)
  {
  }

  /** Adding and then subtracting a finite value, or multiplying and then dividing by a non-zero one, is no change. */
  lemma Undo(a: Num, b: Num)
    requires b.Finite?
    ensures Minus(Plus(a, b), b) == a
    ensures b.value != 0.0 ==> Divide(Times(a, b), b) == a
  {
    if a.Finite? && b.value != 0.0 {
      assert (a.value * b.value) / b.value == a.value;
    }
  }

  /** A non-finite operand makes every operation non-finite. */
  lemma Absorbs(a: Num)
    ensures Plus(a, NonFinite) == Plus(NonFinite, a) == NonFinite
    ensures Minus(a, NonFinite) == Minus(NonFinite, a) == NonFinite
    ensures Times(a, NonFinite) == Times(NonFinite, a) == NonFinite
    ensures Divide(a, NonFinite) == Divide(NonFinite, a) == NonFinite
  {
  }

  /** The fold step of `term`: `*` multiplies, any other operator divides. */
  function TermStep(acc: Num, v: (string, Num)): Num {
    if v.0 == "*" then Times(acc, v.1) else Divide(acc, v.1)
  }

  /** The fold step of `expr`: `+` adds, any other operator subtracts. */
  function ExprStep(acc: Num, v: (string, Num)): Num {
    if v.0 == "+" then Plus(acc, v.1) else Minus(acc, v.1)
  }

  // ---------------------------------------------------------------------------
  // The grammar as combinators over its parts

  function MulOp(): Parser<string> { Alt(Tag("*"), Tag("/")) }

  function AddOp(): Parser<string> { Alt(Tag("+"), Tag("-")) }

  /** `ws!(float64)`: the first version of `factor`, and the first alternative of the second. */
  function Number(): Parser<Num> { Ws(Map(Float64(), ToNum)) }

  /** The second `factor`, with `e` in the place of `expr`. */
  function FactorOver(e: Parser<Num>): Parser<Num> {
    Alt(Number(), Ws(Delimited(Tag("("), e, Tag(")"))))
  }

  /** `term` with `f` in the place of `factor`: one factor, then `(op, factor)` pairs folded in. */
  function TermOver(f: Parser<Num>): Parser<Num> {
    Then(f, (init: Num) => FoldMany0(Pair(MulOp(), f), init, TermStep))
  }

  /** `expr` with `t` in the place of `term`. */
  function ExprOver(t: Parser<Num>): Parser<Num> {
    Then(t, (init: Num) => FoldMany0(Pair(AddOp(), t), init, ExprStep))
  }

  /** The first version of the grammar, where a factor is only a number. */
  function FlatExpr(): Parser<Num> { ExprOver(TermOver(Number())) }

  // ---------------------------------------------------------------------------
  // The recursive grammar
  //
  // `factor` calls `expr` only after a '(', so on strictly shorter input; `term`
  // and `expr` call the level below on input no longer than their own. The
  // definitions below say so with guarded parsers, and FactorIsGrammar,
  // TermIsGrammar and ExprIsGrammar prove the guards never change a result.

  /** `expr`, seen from inside a factor whose input has length n: only shorter inputs are parsed. */
  function ExprBelow(n: nat): Parser<Num>
    decreases n, 0
  {
    (t: string) => if |t| < n then Expr(t) else Error(NomError.Alt)
  }

  function Factor(s: string): IResult<Num>
    decreases |s|, 1
  {
    FactorOver(ExprBelow(|s|))(s)
  }

  /** `factor`, seen from inside a term whose input has length n. */
  function FactorUpTo(n: nat): Parser<Num>
    decreases n, 2
  {
    (t: string) => if |t| <= n then Factor(t) else Error(NomError.Alt)
  }

  function Term(s: string): IResult<Num>
    decreases |s|, 3
  {
    TermOver(FactorUpTo(|s|))(s)
  }

  /** `term`, seen from inside an expression whose input has length n. */
  function TermUpTo(n: nat): Parser<Num>
    decreases n, 4
  {
    (t: string) => if |t| <= n then Term(t) else Error(NomError.Alt)
  }

  function Expr(s: string): IResult<Num>
    decreases |s|, 5
  {
    ExprOver(TermUpTo(|s|))(s)
  }

  // ---------------------------------------------------------------------------
  // Every grammar parser returns a suffix of its input

  lemma ConsumesNumber()
    ensures Consumes(Number())
  {
    ConsumesFloatParts();
    ConsumesRecognize(FloatParts());
    ConsumesMapRes(FloatingPoint(), FromStrF64);
    ConsumesMap(Float64(), ToNum);
    ConsumesWs(Map(Float64(), ToNum));
  }

  lemma ConsumesOps()
    ensures Consumes(MulOp()) && Consumes(AddOp())
  {
    ConsumesTag("*");
    ConsumesTag("/");
    ConsumesTag("+");
    ConsumesTag("-");
    ConsumesAlt(Tag("*"), Tag("/"));
    ConsumesAlt(Tag("+"), Tag("-"));
  }

  lemma ConsumesFactorOver(e: Parser<Num>)
    requires Consumes(e)
    ensures Consumes(FactorOver(e))
  {
    ConsumesNumber();
    ConsumesTag("(");
    ConsumesTag(")");
    ConsumesDelimited(Tag("("), e, Tag(")"));
    ConsumesWs(Delimited(Tag("("), e, Tag(")")));
    ConsumesAlt(Number(), Ws(Delimited(Tag("("), e, Tag(")"))));
  }

  lemma ConsumesTermOver(f: Parser<Num>)
    requires Consumes(f)
    ensures Consumes(TermOver(f))
  {
    ConsumesOps();
    ConsumesPair(MulOp(), f);
    forall s | TermOver(f)(s).Done? ensures IsSuffix(TermOver(f)(s).rest, s) {
      var r, v := f(s).rest, f(s).value;
      ConsumesFoldMany0(Pair(MulOp(), f), v, TermStep);
      assert TermOver(f)(s) == FoldMany0(Pair(MulOp(), f), v, TermStep)(r);
      SuffixTrans(TermOver(f)(s).rest, r, s);
    }
  }

  lemma ConsumesExprOver(t: Parser<Num>)
    requires Consumes(t)
    ensures Consumes(ExprOver(t))
  {
    ConsumesOps();
    ConsumesPair(AddOp(), t);
    forall s | ExprOver(t)(s).Done? ensures IsSuffix(ExprOver(t)(s).rest, s) {
      var r, v := t(s).rest, t(s).value;
      ConsumesFoldMany0(Pair(AddOp(), t), v, ExprStep);
      assert ExprOver(t)(s) == FoldMany0(Pair(AddOp(), t), v, ExprStep)(r);
      SuffixTrans(ExprOver(t)(s).rest, r, s);
    }
  }

  lemma FactorSuffix(s: string)
    ensures Factor(s).Done? ==> IsSuffix(Factor(s).rest, s)
    decreases |s|, 1
  {
    forall t ensures ExprBelow(|s|)(t).Done? ==> IsSuffix(ExprBelow(|s|)(t).rest, t) {
      if |t| < |s| { ExprSuffix(t); }
    }
    ConsumesFactorOver(ExprBelow(|s|));
  }

  lemma TermSuffix(s: string)
    ensures Term(s).Done? ==> IsSuffix(Term(s).rest, s)
    decreases |s|, 3
  {
    forall t ensures FactorUpTo(|s|)(t).Done? ==> IsSuffix(FactorUpTo(|s|)(t).rest, t) {
      if |t| <= |s| { FactorSuffix(t); }
    }
    ConsumesTermOver(FactorUpTo(|s|));
  }

  lemma ExprSuffix(s: string)
    ensures Expr(s).Done? ==> IsSuffix(Expr(s).rest, s)
    decreases |s|, 5
  {
    forall t ensures TermUpTo(|s|)(t).Done? ==> IsSuffix(TermUpTo(|s|)(t).rest, t) {
      if |t| <= |s| { TermSuffix(t); }
    }
    ConsumesExprOver(TermUpTo(|s|));
  }

  /** The remainder of every grammar parser is a suffix of its input. */
  lemma ConsumesGrammar()
    ensures Consumes(Factor) && Consumes(Term) && Consumes(Expr)
  {
    forall s ensures Factor(s).Done? ==> IsSuffix(Factor(s).rest, s) { FactorSuffix(s); }
    forall s ensures Term(s).Done? ==> IsSuffix(Term(s).rest, s) { TermSuffix(s); }
    forall s ensures Expr(s).Done? ==> IsSuffix(Expr(s).rest, s) { ExprSuffix(s); }
  }

  // ---------------------------------------------------------------------------
  // The guarded definitions are the grammar of the lesson

  /** `factor` is `alt!(ws!(float64) | ws!(delimited!(tag_s!("("), expr, tag_s!(")"))))`. */
  lemma FactorIsGrammar(s: string)
    ensures Factor(s) == FactorOver(Expr)(s)
  {
    var s1 := SkipSpace(s);
    if Tag("(")(s1).Done? {
      TagSpec("(", s1);
    }
    DelimitedCongruence(Tag("("), ExprBelow(|s|), Expr, Tag(")"), s1);
    WsCongruence(Delimited(Tag("("), ExprBelow(|s|), Tag(")")), Delimited(Tag("("), Expr, Tag(")")), s);
    AltCongruence(Number(), Ws(Delimited(Tag("("), ExprBelow(|s|), Tag(")"))), Ws(Delimited(Tag("("), Expr, Tag(")"))), s);
  }

  /** `term` is one `factor` followed by `(op, factor)` pairs folded with TermStep. */
  lemma TermIsGrammar(s: string)
    ensures Term(s) == TermOver(Factor)(s)
  {
    var g := FactorUpTo(|s|);
    assert g(s) == Factor(s);
    if Factor(s).Done? {
      var r, v := Factor(s).rest, Factor(s).value;
      FactorSuffix(s);
      ConsumesOps();
      forall t | |t| <= |r| ensures Pair(MulOp(), g)(t) == Pair(MulOp(), Factor)(t) {
        if MulOp()(t).Done? {
          assert g(MulOp()(t).rest) == Factor(MulOp()(t).rest);
        }
      }
      FoldLoopCongruence(Pair(MulOp(), g), Pair(MulOp(), Factor), v, TermStep, r);
      assert Term(s) == FoldLoop(Pair(MulOp(), g), v, TermStep, r);
      assert TermOver(Factor)(s) == FoldLoop(Pair(MulOp(), Factor), v, TermStep, r);
    }
  }

  /** `expr` is one `term` followed by `(op, term)` pairs folded with ExprStep. */
  lemma ExprIsGrammar(s: string)
    ensures Expr(s) == ExprOver(Term)(s)
  {
    var g := TermUpTo(|s|);
    assert g(s) == Term(s);
    if Term(s).Done? {
      var r, v := Term(s).rest, Term(s).value;
      TermSuffix(s);
      ConsumesOps();
      forall t | |t| <= |r| ensures Pair(AddOp(), g)(t) == Pair(AddOp(), Term)(t) {
        if AddOp()(t).Done? {
          assert g(AddOp()(t).rest) == Term(AddOp()(t).rest);
        }
      }
      FoldLoopCongruence(Pair(AddOp(), g), Pair(AddOp(), Term), v, ExprStep, r);
      assert Expr(s) == FoldLoop(Pair(AddOp(), g), v, ExprStep, r);
      assert ExprOver(Term)(s) == FoldLoop(Pair(AddOp(), Term), v, ExprStep, r);
    }
  }

  // ---------------------------------------------------------------------------
  // Expression trees, their evaluation and their text

  /** A digit character, for the fraction part of a literal. */
  type Digit = c: char | IsDigit(c) witness '0'

  datatype Op = Sum | Difference | Product | Quotient

  /** Whitespace between two tokens. */
  type Space = s: string | AllSpace(s) witness ""

  /**
   * The whitespace a binary node is written with: around its operator, and
   * inside the parentheses when it is written as a factor.
   */
  datatype Gaps = Gaps(beforeOp: Space, afterOp: Space, afterOpen: Space, beforeClose: Space)

  /**
   * How a number is written: a mantissa of digits with an optional sign, then
   * an optional fraction (`.` and digits) and an optional exponent (`e` or `E`
   * and optionally signed digits).
   */
  datatype Spelling = Spelling(mantissa: string, fraction: string, exponent: string)

  /** A spelling `floating_point` accepts: `-3.0`, `1e2`, `2.5E-1`, `007.5`. */
  type Literal = s: Spelling | NumberText(s.mantissa, s.fraction, s.exponent) witness Spelling("0", "", "")

  /**
   * An arithmetic expression: a number as it is written, or an operator applied
   * to two subexpressions, with the whitespace its text carries between tokens.
   */
  datatype Ast = Lit(spelling: Literal) | Bin(op: Op, left: Ast, right: Ast, gaps: Gaps)

  predicate Additive(e: Ast) { e.Bin? && (e.op == Sum || e.op == Difference) }

  predicate Multiplicative(e: Ast) { e.Bin? && (e.op == Product || e.op == Quotient) }

  /** The exact value of a literal: the decimal its spelling denotes. */
  function LitValue(l: Literal): real {
    DecimalValue(DecimalOf(l.mantissa, l.fraction, l.exponent))
  }

  /** The usual evaluation of a tree, each operator applied to its operands' values. */
  function Eval(e: Ast): Num {
    match e
    case Lit(l) => Finite(LitValue(l))
    case Bin(Sum, l, r, _) => Plus(Eval(l), Eval(r))
    case Bin(Difference, l, r, _) => Minus(Eval(l), Eval(r))
    case Bin(Product, l, r, _) => Times(Eval(l), Eval(r))
    case Bin(Quotient, l, r, _) => Divide(Eval(l), Eval(r))
  }

  function FractionPart(fraction: seq<Digit>): string {
    if fraction == [] then [] else "." + fraction
  }

  function LitText(l: Literal): string {
    l.mantissa + (l.fraction + l.exponent)
  }

  /** The value of an unsigned literal `whole.fraction` without exponent. */
  function PlainValue(whole: nat, fraction: seq<Digit>): real {
    (whole * Pow10(|fraction|) + DigitsValue(fraction)) as real / Pow10(|fraction|) as real
  }

  /** The literal `whole.fraction`, with no fraction part when `fraction` is empty. */
  function Plain(whole: nat, fraction: seq<Digit>): (l: Literal)
    ensures LitText(l) == NatToString(whole) + FractionPart(fraction)
    ensures LitValue(l) == PlainValue(whole, fraction)
  {
    LitDecimal(whole, fraction);
    Spelling(NatToString(whole), FractionPart(fraction), "")
  }

  function OpText(op: Op): string {
    match op
    case Sum => "+"
    case Difference => "-"
    case Product => "*"
    case Quotient => "/"
  }

  datatype Level = ExprLevel | TermLevel | FactorLevel

  /** Orders the three printers (and the three reading lemmas) on one tree. */
  function Rank(e: Ast, level: Level): nat {
    if e.Lit? then (match level case FactorLevel => 0 case TermLevel => 1 case ExprLevel => 2)
    else if Multiplicative(e) then (match level case TermLevel => 0 case ExprLevel => 1 case FactorLevel => 2)
    else (match level case ExprLevel => 0 case FactorLevel => 1 case TermLevel => 2)
  }

  /**
   * The text of a tree as an expression, with the fewest parentheses: a sum or
   * difference is written left-associated, anything else as a term. Every
   * token boundary inside carries the whitespace the tree records there.
   */
  function PrintExpr(e: Ast): string
    decreases e, Rank(e, ExprLevel)
  {
    if Additive(e) then PrintExpr(e.left) + (e.gaps.beforeOp + (OpText(e.op) + (e.gaps.afterOp + PrintTerm(e.right))))
    else PrintTerm(e)
  }

  function PrintTerm(e: Ast): string
    decreases e, Rank(e, TermLevel)
  {
    if Multiplicative(e) then PrintTerm(e.left) + (e.gaps.beforeOp + (OpText(e.op) + (e.gaps.afterOp + PrintFactor(e.right))))
    else PrintFactor(e)
  }

  /** A literal as itself, anything else in parentheses. */
  function PrintFactor(e: Ast): string
    decreases e, Rank(e, FactorLevel)
  {
    if e.Lit? then LitText(e.spelling)
    else "(" + (e.gaps.afterOpen + (PrintExpr(e) + (e.gaps.beforeClose + ")")))
  }

  // ---------------------------------------------------------------------------
  // Reading a printed tree

  /** What may follow an expression inside a larger one: nothing, or a closing parenthesis. */
  predicate FollowsExpr(r: string) { r == [] || r[0] == ')' }

  /** What may follow a term: also an additive operator. */
  predicate FollowsTerm(r: string) { FollowsExpr(r) || r[0] == '+' || r[0] == '-' }

  /** What may follow a factor: also a multiplicative operator. */
  predicate FollowsFactor(r: string) { FollowsTerm(r) || r[0] == '*' || r[0] == '/' }

  /** A literal's text converts to the literal's value. */
  lemma Float64Lit(l: Literal, r: string)
    requires EndsNumber(r)
    ensures Float64()(LitText(l) + r) == Done(r, LitValue(l))
  {
    assert LitText(l) + r == l.mantissa + (l.fraction + (l.exponent + r));
    Float64Over(l.mantissa, l.fraction, l.exponent, r);
  }

  /** The spelling of `whole.fraction` is number text, and the decimal it spells has the value of `whole.fraction`. */
  lemma LitDecimal(whole: nat, fraction: seq<Digit>)
    ensures NumberText(NatToString(whole), FractionPart(fraction), "")
    ensures DecimalValue(DecimalOf(NatToString(whole), FractionPart(fraction), "")) == PlainValue(whole, fraction)
  {
    var t, fp := NatToString(whole), FractionPart(fraction);
    assert IsDigit(t[0]);
    assert fp != [] ==> fp[1..] == fraction;
    assert AllDigits(fraction);
    DigitsValueConcat(t, fraction);
    assert DecimalOf(t, fp, "") == Decimal(false, t + fraction, |fraction|, 0);
  }

  /** After a factor, no further `*` or `/` is read: the fold of `term` stops where it is. */
  lemma MulStops(f: Parser<Num>, v: Num, rest: string)
    requires FollowsTerm(rest)
    ensures FoldLoop(Pair(MulOp(), f), v, TermStep, rest) == Done(rest, v)
  {
    if rest != [] {
      TagSpec("*", rest);
      TagSpec("/", rest);
      assert rest[..1][0] == rest[0];
      assert MulOp()(rest).Error?;
    }
  }

  /** After a term, no further `+` or `-` is read: the fold of `expr` stops where it is. */
  lemma AddStops(t: Parser<Num>, v: Num, rest: string)
    requires FollowsExpr(rest)
    ensures FoldLoop(Pair(AddOp(), t), v, ExprStep, rest) == Done(rest, v)
  {
    if rest != [] {
      TagSpec("+", rest);
      TagSpec("-", rest);
      assert rest[..1][0] == rest[0];
      assert AddOp()(rest).Error?;
    }
  }

  /** Text starting with '(' is no number. */
  lemma NoNumberAtParen(s: string)
    requires s != [] && s[0] == '('
    ensures !Float64()(s).Done?
  {
    Float64Total(s);
    FloatingPointShape(s);
  }

  lemma RegroupParen(lead: string, open: string, x: string, close: string, sp: string, rest: string)
    ensures lead + (("(" + (open + (x + (close + ")")))) + (sp + rest))
         == lead + ("(" + ((open + (x + close)) + (")" + (sp + rest))))
    ensures open + (x + (close + (")" + (sp + rest)))) == (open + (x + close)) + (")" + (sp + rest))
  {
  }

  lemma RegroupOp(lead: string, a: string, b: string, o: string, c: string, r: string, sp: string, rest: string)
    ensures lead + ((a + (b + (o + (c + r)))) + (sp + rest)) == lead + (a + (b + (o + (c + (r + (sp + rest))))))
  {
  }

  /** Spaces, then what a factor may be followed by: nothing that continues a number. */
  lemma FollowsEndsNumber(sp: string, rest: string)
    requires AllSpace(sp) && FollowsFactor(rest)
    ensures EndsNumber(sp + rest)
    ensures rest == [] || !IsSpace(rest[0])
  {
    if sp != [] { assert (sp + rest)[0] == sp[0]; } else { assert sp + rest == rest; }
  }

  /** A factor that is a number is read by the first alternative. */
  lemma FactorNumber(s: string)
    requires Number()(s).Done?
    ensures Factor(s) == Number()(s)
  {
    FactorIsGrammar(s);
    AltFirst(Number(), Ws(Delimited(Tag("("), Expr, Tag(")"))), s);
  }

  /** A factor that is no number is read by the second alternative. */
  lemma FactorParen(s: string)
    requires !Number()(s).Done? && Ws(Delimited(Tag("("), Expr, Tag(")")))(s).Done?
    ensures Factor(s) == Ws(Delimited(Tag("("), Expr, Tag(")")))(s)
  {
    FactorIsGrammar(s);
    AltSecond(Number(), Ws(Delimited(Tag("("), Expr, Tag(")"))), s);
  }

  /** Spaces, a number and spaces make a `ws!(float64)` match. */
  lemma NumberOf(lead: string, t: string, sp: string, rest: string, v: real)
    requires AllSpace(lead) && AllSpace(sp) && (rest == [] || !IsSpace(rest[0]))
    requires t != [] && !IsSpace(t[0])
    requires Float64()(t + (sp + rest)) == Done(sp + rest, v)
    ensures Number()(lead + (t + (sp + rest))) == Done(rest, Finite(v))
  {
    SkipSpaceOver(lead, t + (sp + rest));
    SkipSpaceOver(sp, rest);
    MapOf(Float64(), ToNum, t + (sp + rest), sp + rest, v);
    WsOf(Map(Float64(), ToNum), lead + (t + (sp + rest)), t + (sp + rest), sp + rest, rest, Finite(v));
  }

  /** A literal, with spaces around it, is one `ws!(float64)` match. */
  lemma LitNumber(l: Literal, lead: string, sp: string, rest: string)
    requires AllSpace(lead) && AllSpace(sp) && FollowsFactor(rest)
    ensures Number()(lead + (LitText(l) + (sp + rest))) == Done(rest, Finite(LitValue(l)))
  {
    var t := LitText(l);
    assert t[0] == l.mantissa[0];
    assert t[0] in "+-" || IsDigit(t[0]);
    FollowsEndsNumber(sp, rest);
    Float64Lit(l, sp + rest);
    NumberOf(lead, t, sp, rest, LitValue(l));
  }

  /** A literal, with spaces around it, is one factor of the recursive grammar too. */
  lemma LitFactor(l: Literal, lead: string, sp: string, rest: string)
    requires AllSpace(lead) && AllSpace(sp) && FollowsFactor(rest)
    ensures Factor(lead + (LitText(l) + (sp + rest))) == Done(rest, Finite(LitValue(l)))
  {
    LitNumber(l, lead, sp, rest);
    FactorNumber(lead + (LitText(l) + (sp + rest)));
  }

  /** `delimited!(tag_s!("("), expr, tag_s!(")"))` on an expression in parentheses. */
  lemma DelimitedParen(x: string, r: string, v: Num)
    requires Expr(x + (")" + r)) == Done(")" + r, v)
    ensures Delimited(Tag("("), Expr, Tag(")"))("(" + (x + (")" + r))) == Done(r, v)
  {
    TagPrefix("(", x + (")" + r));
    TagPrefix(")", r);
    DelimitedOf(Tag("("), Expr, Tag(")"), "(" + (x + (")" + r)), x + (")" + r), ")" + r, r, "(", v, ")");
  }

  /** A parenthesised expression, with spaces around it, is one factor. */
  lemma ParenFactor(lead: string, x: string, sp: string, rest: string, v: Num)
    requires AllSpace(lead) && AllSpace(sp) && FollowsFactor(rest)
    requires Expr(x + (")" + (sp + rest))) == Done(")" + (sp + rest), v)
    ensures Factor(lead + ("(" + (x + (")" + (sp + rest))))) == Done(rest, v)
  {
    var t := "(" + (x + (")" + (sp + rest)));
    FollowsEndsNumber(sp, rest);
    SkipSpaceOver(lead, t);
    SkipSpaceOver(sp, rest);
    DelimitedParen(x, sp + rest, v);
    WsOf(Delimited(Tag("("), Expr, Tag(")")), lead + t, t, sp + rest, rest, v);
    NoNumberAtParen(t);
    WsSkips(Map(Float64(), ToNum), lead + t);
    FactorParen(lead + t);
  }

  /** A `*` or `/` and a factor after it: the fold of `term` takes one step. */
  lemma MulStep(f: Parser<Num>, op: Op, x: string, rest: string, v: Num, w: Num)
    requires op == Product || op == Quotient
    requires f(x) == Done(rest, w) && |rest| <= |x|
    ensures FoldLoop(Pair(MulOp(), f), v, TermStep, OpText(op) + x)
         == FoldLoop(Pair(MulOp(), f), TermStep(v, (OpText(op), w)), TermStep, rest)
  {
    var o := OpText(op);
    TagPrefix(o, x);
    if op == Quotient {
      TagSpec("*", o + x);
      assert (o + x)[..1] == "/";
    }
    assert MulOp()(o + x) == Done(x, o);
    PairDone(MulOp(), f, o + x);
    FoldLoopStep(Pair(MulOp(), f), v, TermStep, o + x, rest, (o, w));
  }

  /** A `+` or `-` and a term after it: the fold of `expr` takes one step. */
  lemma AddStep(t: Parser<Num>, op: Op, x: string, rest: string, v: Num, w: Num)
    requires op == Sum || op == Difference
    requires t(x) == Done(rest, w) && |rest| <= |x|
    ensures FoldLoop(Pair(AddOp(), t), v, ExprStep, OpText(op) + x)
         == FoldLoop(Pair(AddOp(), t), ExprStep(v, (OpText(op), w)), ExprStep, rest)
  {
    var o := OpText(op);
    TagPrefix(o, x);
    if op == Difference {
      TagSpec("+", o + x);
      assert (o + x)[..1] == "-";
    }
    assert AddOp()(o + x) == Done(x, o);
    PairDone(AddOp(), t, o + x);
    FoldLoopStep(Pair(AddOp(), t), v, ExprStep, o + x, rest, (o, w));
  }

  // ---------------------------------------------------------------------------
  // Precedence and left associativity, for any factor and term parsers

  /** `f` reads the factor text of `e`, with any spaces around it, up to what may follow a factor. */
  ghost predicate ReadsFactor(f: Parser<Num>, e: Ast) {
    forall lead, sp, rest :: AllSpace(lead) && AllSpace(sp) && FollowsFactor(rest) ==>
      f(lead + (PrintFactor(e) + (sp + rest))) == Done(rest, Eval(e))
  }

  /** `f` reads every factor of the product chain `e`. */
  ghost predicate ReadsFactors(f: Parser<Num>, e: Ast) {
    if Multiplicative(e) then ReadsFactors(f, e.left) && ReadsFactor(f, e.right) else ReadsFactor(f, e)
  }

  /** `t` reads the term text of `e`, with any spaces around it, up to what may follow a term. */
  ghost predicate ReadsTerm(t: Parser<Num>, e: Ast) {
    forall lead, sp, rest :: AllSpace(lead) && AllSpace(sp) && FollowsTerm(rest) ==>
      t(lead + (PrintTerm(e) + (sp + rest))) == Done(rest, Eval(e))
  }

  /** `t` reads every term of the sum chain `e`. */
  ghost predicate ReadsTerms(t: Parser<Num>, e: Ast) {
    if Additive(e) then ReadsTerms(t, e.left) && ReadsTerm(t, e.right) else ReadsTerm(t, e)
  }

  /** A sum chain whose left chain and last term are read is read. */
  lemma ReadsTermsStep(t: Parser<Num>, e: Ast)
    requires Additive(e) && ReadsTerms(t, e.left) && ReadsTerm(t, e.right)
    ensures ReadsTerms(t, e)
  {
  }

  /** A tree that is not a sum chain is read as one term. */
  lemma ReadsTermsBase(t: Parser<Num>, e: Ast)
    requires !Additive(e) && ReadsTerm(t, e)
    ensures ReadsTerms(t, e)
  {
  }

  lemma UseReadsFactor(f: Parser<Num>, e: Ast, lead: string, sp: string, rest: string)
    requires ReadsFactor(f, e) && AllSpace(lead) && AllSpace(sp) && FollowsFactor(rest)
    ensures f(lead + (PrintFactor(e) + (sp + rest))) == Done(rest, Eval(e))
  {
  }

  lemma UseReadsTerm(t: Parser<Num>, e: Ast, lead: string, sp: string, rest: string)
    requires ReadsTerm(t, e) && AllSpace(lead) && AllSpace(sp) && FollowsTerm(rest)
    ensures t(lead + (PrintTerm(e) + (sp + rest))) == Done(rest, Eval(e))
  {
  }

  /**
   * `term` over a parser that reads each factor: the factors are folded from the
   * left, each `*` or `/` applied to the value so far.
   */
  lemma {:induction false} TermReads(f: Parser<Num>, e: Ast, lead: string, sp: string, rest: string)
    requires ReadsFactors(f, e)
    requires AllSpace(lead) && AllSpace(sp) && FollowsFactor(rest)
    ensures TermOver(f)(lead + (PrintTerm(e) + (sp + rest))) == FoldLoop(Pair(MulOp(), f), Eval(e), TermStep, rest)
  {
    if Multiplicative(e) {
      var g := e.gaps;
      var o, x := OpText(e.op), g.afterOp + (PrintFactor(e.right) + (sp + rest));
      RegroupOp(lead, PrintTerm(e.left), g.beforeOp, o, g.afterOp, PrintFactor(e.right), sp, rest);
      assert (o + x)[0] == o[0];
      TermReads(f, e.left, lead, g.beforeOp, o + x);
      UseReadsFactor(f, e.right, g.afterOp, sp, rest);
      MulStep(f, e.op, x, rest, Eval(e.left), Eval(e.right));
      assert TermStep(Eval(e.left), (o, Eval(e.right))) == Eval(e);
    } else {
      UseReadsFactor(f, e, lead, sp, rest);
    }
  }

  /**
   * `expr` over a parser that reads each term: the terms are folded from the
   * left, each `+` or `-` applied to the value so far.
   */
  lemma {:induction false} ExprReads(t: Parser<Num>, e: Ast, lead: string, sp: string, rest: string)
    requires ReadsTerms(t, e)
    requires AllSpace(lead) && AllSpace(sp) && FollowsTerm(rest)
    ensures ExprOver(t)(lead + (PrintExpr(e) + (sp + rest))) == FoldLoop(Pair(AddOp(), t), Eval(e), ExprStep, rest)
  {
    if Additive(e) {
      var g := e.gaps;
      var o, x := OpText(e.op), g.afterOp + (PrintTerm(e.right) + (sp + rest));
      RegroupOp(lead, PrintExpr(e.left), g.beforeOp, o, g.afterOp, PrintTerm(e.right), sp, rest);
      assert (o + x)[0] == o[0];
      ExprReads(t, e.left, lead, g.beforeOp, o + x);
      UseReadsTerm(t, e.right, g.afterOp, sp, rest);
      AddStep(t, e.op, x, rest, Eval(e.left), Eval(e.right));
      assert ExprStep(Eval(e.left), (o, Eval(e.right))) == Eval(e);
    } else {
      UseReadsTerm(t, e, lead, sp, rest);
    }
  }

  /** A term over a parser that reads its factors reads the whole term. */
  lemma TermReadsWhole(f: Parser<Num>, e: Ast)
    requires ReadsFactors(f, e)
    ensures ReadsTerm(TermOver(f), e)
  {
    forall lead, sp, rest | AllSpace(lead) && AllSpace(sp) && FollowsTerm(rest)
      ensures TermOver(f)(lead + (PrintTerm(e) + (sp + rest))) == Done(rest, Eval(e))
    {
      TermReads(f, e, lead, sp, rest);
      MulStops(f, Eval(e), rest);
    }
  }

  // ---------------------------------------------------------------------------
  // The recursive grammar reads every printed tree

  /** `factor` reads any tree written as a factor. */
  lemma FactorRead(e: Ast)
    ensures ReadsFactor(Factor, e)
    decreases e, Rank(e, FactorLevel)
  {
    if e.Bin? {
      TermsRead(e);
    }
    forall lead, sp, rest | AllSpace(lead) && AllSpace(sp) && FollowsFactor(rest)
      ensures Factor(lead + (PrintFactor(e) + (sp + rest))) == Done(rest, Eval(e))
    {
      if e.Lit? {
        LitFactor(e.spelling, lead, sp, rest);
      } else {
        var g := e.gaps;
        var x, r := g.afterOpen + (PrintExpr(e) + g.beforeClose), ")" + (sp + rest);
        RegroupParen(lead, g.afterOpen, PrintExpr(e), g.beforeClose, sp, rest);
        ExprReads(Term, e, g.afterOpen, g.beforeClose, r);
        AddStops(Term, Eval(e), r);
        ExprIsGrammar(g.afterOpen + (PrintExpr(e) + (g.beforeClose + r)));
        ParenFactor(lead, x, sp, rest, Eval(e));
      }
    }
  }

  /** `factor` reads every factor of a product chain. */
  lemma {:induction false} FactorsRead(e: Ast)
    ensures ReadsFactors(Factor, e)
    decreases e, Rank(e, TermLevel), 0
  {
    if Multiplicative(e) {
      FactorsRead(e.left);
      FactorRead(e.right);
    } else {
      FactorRead(e);
    }
  }

  /** `term` reads any tree written as a term. */
  lemma TermRead(e: Ast)
    ensures ReadsTerm(Term, e)
    decreases e, Rank(e, TermLevel), 1
  {
    FactorsRead(e);
    forall lead, sp, rest | AllSpace(lead) && AllSpace(sp) && FollowsTerm(rest)
      ensures Term(lead + (PrintTerm(e) + (sp + rest))) == Done(rest, Eval(e))
    {
      TermReads(Factor, e, lead, sp, rest);
      MulStops(Factor, Eval(e), rest);
      TermIsGrammar(lead + (PrintTerm(e) + (sp + rest)));
    }
  }

  /** `term` reads every term of a sum chain. */
  lemma {:induction false} TermsRead(e: Ast)
    ensures ReadsTerms(Term, e)
    decreases e, Rank(e, ExprLevel)
  {
    if Additive(e) {
      TermsRead(e.left);
      TermRead(e.right);
      ReadsTermsStep(Term, e);
    } else {
      assert Rank(e, TermLevel) < Rank(e, ExprLevel);
      TermRead(e);
      ReadsTermsBase(Term, e);
    }
  }

  /**
   * Parsing evaluates: the text of any expression tree, each leaf written as
   * any number text `floating_point` accepts and with any whitespace at each
   * of its token boundaries and around it, parses completely to the tree's
   * value, so the folds of `term` and `expr` give `*` and `/` precedence over
   * `+` and `-` and make each level associate to the left.
   */
  lemma ExprEvaluates(e: Ast, lead: string, trail: string)
    requires AllSpace(lead) && AllSpace(trail)
    ensures Expr(lead + (PrintExpr(e) + trail)) == Done("", Eval(e))
  {
    assert trail + "" == trail;
    TermsRead(e);
    ExprReads(Term, e, lead, trail, "");
    AddStops(Term, Eval(e), "");
    ExprIsGrammar(lead + (PrintExpr(e) + trail));
  }

  // ---------------------------------------------------------------------------
  // The first grammar, whose factors are numbers only

  /** A product chain of literals. */
  predicate FlatTerm(e: Ast) {
    if Multiplicative(e) then FlatTerm(e.left) && e.right.Lit? else e.Lit?
  }

  /** A sum chain of products of literals: an expression without parentheses. */
  predicate FlatExpression(e: Ast) {
    if Additive(e) then FlatExpression(e.left) && FlatTerm(e.right) else FlatTerm(e)
  }

  /** `ws!(float64)` reads every factor of a product of literals. */
  lemma {:induction false} NumbersRead(e: Ast)
    requires FlatTerm(e)
    ensures ReadsFactors(Number(), e)
  {
    var lit := if Multiplicative(e) then e.right else e;
    forall lead, sp, rest | AllSpace(lead) && AllSpace(sp) && FollowsFactor(rest)
      ensures Number()(lead + (PrintFactor(lit) + (sp + rest))) == Done(rest, Eval(lit))
    {
      LitNumber(lit.spelling, lead, sp, rest);
    }
    if Multiplicative(e) {
      NumbersRead(e.left);
    }
  }

  /** The first `term` reads every term of a sum of products of literals. */
  lemma {:induction false} FlatTermsRead(e: Ast)
    requires FlatExpression(e)
    ensures ReadsTerms(TermOver(Number()), e)
  {
    if Additive(e) {
      FlatTermsRead(e.left);
      NumbersRead(e.right);
      TermReadsWhole(Number(), e.right);
    } else {
      NumbersRead(e);
      TermReadsWhole(Number(), e);
    }
  }

  /**
   * The first grammar evaluates every expression without parentheses, spaced
   * in any way, with the same precedence and associativity as the recursive one.
   */
  lemma FlatEvaluates(e: Ast, lead: string, trail: string)
    requires FlatExpression(e) && AllSpace(lead) && AllSpace(trail)
    ensures FlatExpr()(lead + (PrintExpr(e) + trail)) == Done("", Eval(e))
  {
    assert trail + "" == trail;
    FlatTermsRead(e);
    ExprReads(TermOver(Number()), e, lead, trail, "");
    AddStops(TermOver(Number()), Eval(e), "");
  }

  // ---------------------------------------------------------------------------
  // The lesson's checks, each on the text `stringify!` gives `expr`

  /** A literal with one digit before and one after the point. */
  function Tenths(whole: Digit, tenth: Digit): Ast { Lit(Spelling([whole], ['.', tenth], "")) }

  /** Such a literal is written as its three characters and has its value. */
  lemma TenthsText(whole: Digit, tenth: Digit)
    ensures PrintFactor(Tenths(whole, tenth)) == [whole, '.', tenth]
    ensures Eval(Tenths(whole, tenth)) == Finite(DigitValue(whole) as real + DigitValue(tenth) as real / 10.0)
  {
    var w := DigitValue(whole);
    assert NatToString(w) == [DigitChar(w)] == [whole];
    assert Tenths(whole, tenth).spelling == Plain(w, [tenth]);
    assert [tenth][..0] == [];
    assert DigitsValue([tenth]) == DigitValue(tenth);
  }

  /** Reading a whole text with the recursive grammar, and with `to_result`. */
  lemma Evaluates(e: Ast, text: string)
    requires PrintExpr(e) == text
    ensures Expr(text) == Done("", Eval(e))
    ensures ToResult(Expr(text)) == Ok(Eval(e))
  {
    assert "" + (text + "") == text;
    ExprEvaluates(e, "", "");
  }

  /** Reading a whole text without parentheses with the first grammar. */
  lemma FlatReads(e: Ast, text: string)
    requires FlatExpression(e) && PrintExpr(e) == text
    ensures FlatExpr()(text) == Done("", Eval(e))
    ensures ToResult(FlatExpr()(text)) == Ok(Eval(e))
  {
    assert "" + (text + "") == text;
    FlatEvaluates(e, "", "");
  }

  /** `2.3` */
  function Example1(): Ast { Tenths('2', '3') }

  lemma Example1Text()
    ensures PrintExpr(Example1()) == "2.3" && FlatExpression(Example1()) && Eval(Example1()) == Finite(2.3)
  {
    TenthsText('2', '3');
  }

  lemma Example1Evaluates()
    ensures Expr("2.3") == Done("", Finite(2.3))
  {
    Example1Text();
    Evaluates(Example1(), "2.3");
  }

  lemma Example1Flat()
    ensures FlatExpr()("2.3") == Done("", Finite(2.3))
  {
    Example1Text();
    FlatReads(Example1(), "2.3");
  }

  /** The spacing `stringify!` writes: one space on each side of an operator, none inside parentheses. */
  const Spaced: Gaps := Gaps(" ", " ", "", "")

  /** No whitespace at all. */
  const Tight: Gaps := Gaps("", "", "", "")

  /** `2.0 + 3.0 - 4.0` */
  function Example2(): Ast {
    Bin(Difference, Bin(Sum, Tenths('2', '0'), Tenths('3', '0'), Spaced), Tenths('4', '0'), Spaced)
  }

  lemma Example2Join()
    ensures ("2.0" + (" " + ("+" + (" " + "3.0")))) + (" " + ("-" + (" " + "4.0"))) == "2.0 + 3.0 - 4.0"
  {
  }

  lemma Example2Text()
    ensures PrintExpr(Example2()) == "2.0 + 3.0 - 4.0" && FlatExpression(Example2()) && Eval(Example2()) == Finite(1.0)
  {
    TenthsText('2', '0');
    TenthsText('3', '0');
    TenthsText('4', '0');
    assert PrintExpr(Example2()) == ("2.0" + (" " + ("+" + (" " + "3.0")))) + (" " + ("-" + (" " + "4.0")));
    Example2Join();
  }

  lemma Example2Evaluates()
    ensures Expr("2.0 + 3.0 - 4.0") == Done("", Finite(1.0))
  {
    Example2Text();
    Evaluates(Example2(), "2.0 + 3.0 - 4.0");
  }

  lemma Example2Flat()
    ensures FlatExpr()("2.0 + 3.0 - 4.0") == Done("", Finite(1.0))
  {
    Example2Text();
    FlatReads(Example2(), "2.0 + 3.0 - 4.0");
  }

  /** `2.0*3.0 - 4.0`, as `stringify!` writes it and as the lesson's source writes it. */
  function Example3(gaps: Gaps): Ast {
    Bin(Difference, Bin(Product, Tenths('2', '0'), Tenths('3', '0'), gaps), Tenths('4', '0'), Spaced)
  }

  lemma Example3Join()
    ensures ("2.0" + (" " + ("*" + (" " + "3.0")))) + (" " + ("-" + (" " + "4.0"))) == "2.0 * 3.0 - 4.0"
    ensures ("2.0" + ("" + ("*" + ("" + "3.0")))) + (" " + ("-" + (" " + "4.0"))) == "2.0*3.0 - 4.0"
  {
  }

  lemma Example3Text()
    ensures PrintExpr(Example3(Spaced)) == "2.0 * 3.0 - 4.0"
    ensures PrintExpr(Example3(Tight)) == "2.0*3.0 - 4.0"
    ensures FlatExpression(Example3(Spaced)) && FlatExpression(Example3(Tight))
    ensures Eval(Example3(Spaced)) == Eval(Example3(Tight)) == Finite(2.0)
  {
    TenthsText('2', '0');
    TenthsText('3', '0');
    TenthsText('4', '0');
    assert PrintExpr(Example3(Spaced)) == ("2.0" + (" " + ("*" + (" " + "3.0")))) + (" " + ("-" + (" " + "4.0")));
    assert PrintExpr(Example3(Tight)) == ("2.0" + ("" + ("*" + ("" + "3.0")))) + (" " + ("-" + (" " + "4.0")));
    Example3Join();
  }

  lemma Example3Evaluates()
    ensures Expr("2.0 * 3.0 - 4.0") == Done("", Finite(2.0))
    ensures Expr("2.0*3.0 - 4.0") == Done("", Finite(2.0))
  {
    Example3Text();
    Evaluates(Example3(Spaced), "2.0 * 3.0 - 4.0");
    Evaluates(Example3(Tight), "2.0*3.0 - 4.0");
  }

  lemma Example3Flat()
    ensures FlatExpr()("2.0 * 3.0 - 4.0") == Done("", Finite(2.0))
    ensures FlatExpr()("2.0*3.0 - 4.0") == Done("", Finite(2.0))
  {
    Example3Text();
    FlatReads(Example3(Spaced), "2.0 * 3.0 - 4.0");
    FlatReads(Example3(Tight), "2.0*3.0 - 4.0");
  }

  /** `2.2 * (1.1 + 4.5) / 3.4` */
  function Example4(): Ast {
    Bin(Quotient, Bin(Product, Tenths('2', '2'), Bin(Sum, Tenths('1', '1'), Tenths('4', '5'), Spaced), Spaced), Tenths('3', '4'), Spaced)
  }

  lemma Example4Sum()
    ensures PrintFactor(Bin(Sum, Tenths('1', '1'), Tenths('4', '5'), Spaced)) == "(1.1 + 4.5)"
  {
    TenthsText('1', '1');
    TenthsText('4', '5');
    assert PrintExpr(Bin(Sum, Tenths('1', '1'), Tenths('4', '5'), Spaced)) == "1.1" + (" " + ("+" + (" " + "4.5")));
    Example4Join();
  }

  lemma Example4Join()
    ensures "(" + ("" + (("1.1" + (" " + ("+" + (" " + "4.5")))) + ("" + ")"))) == "(1.1 + 4.5)"
    ensures "2.2" + (" " + ("*" + (" " + "(1.1 + 4.5)"))) == "2.2 * (1.1 + 4.5)"
    ensures "2.2 * (1.1 + 4.5)" + (" " + ("/" + (" " + "3.4"))) == "2.2 * (1.1 + 4.5) / 3.4"
  {
  }

  lemma Example4Product()
    ensures PrintTerm(Bin(Product, Tenths('2', '2'), Bin(Sum, Tenths('1', '1'), Tenths('4', '5'), Spaced), Spaced)) == "2.2 * (1.1 + 4.5)"
  {
    Example4Sum();
    TenthsText('2', '2');
    Example4Join();
  }

  lemma Example4Text()
    ensures PrintExpr(Example4()) == "2.2 * (1.1 + 4.5) / 3.4"
  {
    TenthsText('3', '4');
    Example4Product();
    Example4Join();
  }

  lemma Example4Value()
    ensures Eval(Example4()) == Finite(2.2 * (1.1 + 4.5) / 3.4)
  {
    TenthsText('2', '2');
    TenthsText('1', '1');
    TenthsText('4', '5');
    TenthsText('3', '4');
  }

  lemma Example4Evaluates()
    ensures Expr("2.2 * (1.1 + 4.5) / 3.4") == Done("", Finite(2.2 * (1.1 + 4.5) / 3.4))
  {
    Example4Text();
    Example4Value();
    Evaluates(Example4(), "2.2 * (1.1 + 4.5) / 3.4");
  }

  /** `(1.0 + 2.0) * (3.0 + 4.0 * (5.0 + 6.0))` */
  function Example5(): Ast {
    Bin(Product, Bin(Sum, Tenths('1', '0'), Tenths('2', '0'), Spaced),
                 Bin(Sum, Tenths('3', '0'), Bin(Product, Tenths('4', '0'), Bin(Sum, Tenths('5', '0'), Tenths('6', '0'), Spaced), Spaced), Spaced),
        Spaced)
  }

  /** A spaced sum or product of two texts, and that sum in parentheses. */
  lemma SpacedJoin(a: string, o: string, b: string)
    ensures a + (" " + (o + (" " + b))) == a + " " + o + " " + b
    ensures "(" + ("" + ((a + (" " + (o + (" " + b)))) + ("" + ")"))) == "(" + a + " " + o + " " + b + ")"
  {
  }

  lemma Example5Join()
    ensures "(" + "1.0" + " " + "+" + " " + "2.0" + ")" == "(1.0 + 2.0)"
    ensures "(" + "5.0" + " " + "+" + " " + "6.0" + ")" == "(5.0 + 6.0)"
    ensures "4.0" + " " + "*" + " " + "(5.0 + 6.0)" == "4.0 * (5.0 + 6.0)"
    ensures "(" + "3.0" + " " + "+" + " " + "4.0 * (5.0 + 6.0)" + ")" == "(3.0 + 4.0 * (5.0 + 6.0))"
  {
  }

  lemma Example5Whole()
    ensures "(1.0 + 2.0)" + " " + "*" + " " + "(3.0 + 4.0 * (5.0 + 6.0))" == "(1.0 + 2.0) * (3.0 + 4.0 * (5.0 + 6.0))"
  {
    var c := "(1.0 + 2.0) * (3.0 + 4.0 * (5.0 + 6.0))";
    Example5Head();
    Example5Tail();
    Example5Star();
    assert c == c[..11] + c[11..];
  }

  lemma Example5Head()
    ensures "(1.0 + 2.0) * (3.0 + 4.0 * (5.0 + 6.0))"[..11] == "(1.0 + 2.0)"
  {
  }

  lemma Example5Tail()
    ensures "(1.0 + 2.0) * (3.0 + 4.0 * (5.0 + 6.0))"[11..] == " * (3.0 + 4.0 * (5.0 + 6.0))"
  {
  }

  lemma Example5Star()
    ensures "(1.0 + 2.0)" + " " + "*" + " " + "(3.0 + 4.0 * (5.0 + 6.0))" == "(1.0 + 2.0)" + " * (3.0 + 4.0 * (5.0 + 6.0))"
  {
  }

  lemma Example5Left()
    ensures PrintFactor(Bin(Sum, Tenths('1', '0'), Tenths('2', '0'), Spaced)) == "(1.0 + 2.0)"
  {
    TenthsText('1', '0');
    TenthsText('2', '0');
    SpacedJoin("1.0", "+", "2.0");
    Example5Join();
  }

  lemma Example5Product()
    ensures PrintTerm(Bin(Product, Tenths('4', '0'), Bin(Sum, Tenths('5', '0'), Tenths('6', '0'), Spaced), Spaced)) == "4.0 * (5.0 + 6.0)"
  {
    TenthsText('4', '0');
    TenthsText('5', '0');
    TenthsText('6', '0');
    SpacedJoin("5.0", "+", "6.0");
    SpacedJoin("4.0", "*", "(5.0 + 6.0)");
    Example5Join();
  }

  lemma Example5Right()
    ensures PrintFactor(Example5().right) == "(3.0 + 4.0 * (5.0 + 6.0))"
  {
    TenthsText('3', '0');
    Example5Product();
    SpacedJoin("3.0", "+", "4.0 * (5.0 + 6.0)");
    Example5Join();
  }

  lemma Example5Text()
    ensures PrintExpr(Example5()) == "(1.0 + 2.0) * (3.0 + 4.0 * (5.0 + 6.0))"
  {
    var e := Example5();
    Example5Left();
    Example5Right();
    assert PrintTerm(e.left) == PrintFactor(e.left);
    SpacedJoin("(1.0 + 2.0)", "*", "(3.0 + 4.0 * (5.0 + 6.0))");
    Example5Whole();
  }

  lemma Example5Value()
    ensures Eval(Example5()) == Finite(141.0)
  {
    TenthsText('1', '0');
    TenthsText('2', '0');
    TenthsText('3', '0');
    TenthsText('4', '0');
    TenthsText('5', '0');
    TenthsText('6', '0');
  }

  lemma Example5Evaluates()
    ensures Expr("(1.0 + 2.0) * (3.0 + 4.0 * (5.0 + 6.0))") == Done("", Finite(141.0))
  {
    Example5Text();
    Example5Value();
    Evaluates(Example5(), "(1.0 + 2.0) * (3.0 + 4.0 * (5.0 + 6.0))");
  }

  // ---------------------------------------------------------------------------
  // Literals with a sign, an exponent or leading zeros

  /** `-3.0`, `1e2`, `2.5E-1`, `007.5`, `1` and `4` as `floating_point` reads them, with their values. */
  lemma SpelledValues()
    ensures NumberText("-3", ".0", "") && LitValue(Spelling("-3", ".0", "")) == -3.0
    ensures NumberText("1", "", "e2") && LitValue(Spelling("1", "", "e2")) == 100.0
    ensures NumberText("2", ".5", "E-1") && LitValue(Spelling("2", ".5", "E-1")) == 0.25
    ensures NumberText("007", ".5", "") && LitValue(Spelling("007", ".5", "")) == 7.5
    ensures NumberText("1", "", "") && LitValue(Spelling("1", "", "")) == 1.0
    ensures NumberText("4", "", "") && LitValue(Spelling("4", "", "")) == 4.0
  {
    SignedValue();
    PositiveExponent();
    NegativeExponent();
    PaddedValue();
    WholeValues();
  }

  lemma SignedValue()
    ensures NumberText("-3", ".0", "") && LitValue(Spelling("-3", ".0", "")) == -3.0
  {
    assert "-3"[1..] == "3" && ".0"[1..] == "0";
    assert DecimalOf("-3", ".0", "") == Decimal(true, "30", 1, 0);
    assert DigitsValue("30") == 30;
  }

  lemma PositiveExponent()
    ensures NumberText("1", "", "e2") && LitValue(Spelling("1", "", "e2")) == 100.0
  {
    assert "e2"[1..] == "2";
    assert DecimalOf("1", "", "e2") == Decimal(false, "1", 0, 2);
    assert Scale(2) == 100.0;
  }

  lemma WholeValues()
    ensures NumberText("1", "", "") && LitValue(Spelling("1", "", "")) == 1.0
    ensures NumberText("4", "", "") && LitValue(Spelling("4", "", "")) == 4.0
  {
  }

  lemma NegativeExponent()
    ensures NumberText("2", ".5", "E-1") && LitValue(Spelling("2", ".5", "E-1")) == 0.25
  {
    assert ".5"[1..] == "5" && "E-1"[1..] == "-1" && "-1"[1..] == "1";
    assert DecimalOf("2", ".5", "E-1") == Decimal(false, "25", 1, -1);
    assert DigitsValue("25") == 25;
    assert Scale(-1) == 0.1;
  }

  lemma PaddedValue()
    ensures NumberText("007", ".5", "") && LitValue(Spelling("007", ".5", "")) == 7.5
  {
    assert ".5"[1..] == "5";
    assert DecimalOf("007", ".5", "") == Decimal(false, "0075", 1, 0);
    assert "0075"[..3] == "007" && "007"[..2] == "00" && "00"[..1] == "0";
    assert DigitsValue("00") == 0 && DigitsValue("0075") == 75;
  }

  /** `2.0 * -3.0`: a negative literal needs no parentheses. */
  function Example6(): Ast {
    SpelledValues();
    Bin(Product, Tenths('2', '0'), Lit(Spelling("-3", ".0", "")), Spaced)
  }

  /** `1e2 + 1`: an exponent, and a literal with neither fraction nor exponent. */
  function Example7(): Ast {
    SpelledValues();
    Bin(Sum, Lit(Spelling("1", "", "e2")), Lit(Spelling("1", "", "")), Spaced)
  }

  /** `2.5E-1 / 4`: a negative exponent. */
  function Example8(): Ast {
    SpelledValues();
    Bin(Quotient, Lit(Spelling("2", ".5", "E-1")), Lit(Spelling("4", "", "")), Spaced)
  }

  /** `007.5 - 1`: leading zeros. */
  function Example9(): Ast {
    SpelledValues();
    Bin(Difference, Lit(Spelling("007", ".5", "")), Lit(Spelling("1", "", "")), Spaced)
  }

  lemma Example6Text()
    ensures PrintExpr(Example6()) == "2.0 * -3.0" && FlatExpression(Example6()) && Eval(Example6()) == Finite(-6.0)
  {
    TenthsText('2', '0');
    SignedValue();
    assert PrintExpr(Example6()) == "2.0" + (" " + ("*" + (" " + ("-3" + (".0" + "")))));
    assert "2.0" + (" " + ("*" + (" " + ("-3" + (".0" + ""))))) == "2.0 * -3.0";
  }

  lemma Example7Text()
    ensures PrintExpr(Example7()) == "1e2 + 1" && FlatExpression(Example7()) && Eval(Example7()) == Finite(101.0)
  {
    PositiveExponent();
    WholeValues();
    assert PrintExpr(Example7()) == ("1" + ("" + "e2")) + (" " + ("+" + (" " + ("1" + ("" + "")))));
    assert ("1" + ("" + "e2")) + (" " + ("+" + (" " + ("1" + ("" + ""))))) == "1e2 + 1";
  }

  lemma Example8Text()
    ensures PrintExpr(Example8()) == "2.5E-1 / 4" && FlatExpression(Example8()) && Eval(Example8()) == Finite(0.0625)
  {
    NegativeExponent();
    WholeValues();
    assert PrintExpr(Example8()) == ("2" + (".5" + "E-1")) + (" " + ("/" + (" " + ("4" + ("" + "")))));
    assert ("2" + (".5" + "E-1")) + (" " + ("/" + (" " + ("4" + ("" + ""))))) == "2.5E-1 / 4";
  }

  lemma Example9Text()
    ensures PrintExpr(Example9()) == "007.5 - 1" && FlatExpression(Example9()) && Eval(Example9()) == Finite(6.5)
  {
    PaddedValue();
    WholeValues();
    assert PrintExpr(Example9()) == ("007" + (".5" + "")) + (" " + ("-" + (" " + ("1" + ("" + "")))));
    assert ("007" + (".5" + "")) + (" " + ("-" + (" " + ("1" + ("" + ""))))) == "007.5 - 1";
  }

  /** Signed, exponent and zero-padded literals read with both grammars. */
  lemma SpelledExamplesEvaluate()
    ensures Expr("2.0 * -3.0") == Done("", Finite(-6.0)) && FlatExpr()("2.0 * -3.0") == Done("", Finite(-6.0))
    ensures Expr("1e2 + 1") == Done("", Finite(101.0)) && FlatExpr()("1e2 + 1") == Done("", Finite(101.0))
    ensures Expr("2.5E-1 / 4") == Done("", Finite(0.0625)) && FlatExpr()("2.5E-1 / 4") == Done("", Finite(0.0625))
    ensures Expr("007.5 - 1") == Done("", Finite(6.5)) && FlatExpr()("007.5 - 1") == Done("", Finite(6.5))
  {
    Example6Text();
    Example7Text();
    Example8Text();
    Example9Text();
    Evaluates(Example6(), "2.0 * -3.0");
    FlatReads(Example6(), "2.0 * -3.0");
    Evaluates(Example7(), "1e2 + 1");
    FlatReads(Example7(), "1e2 + 1");
    Evaluates(Example8(), "2.5E-1 / 4");
    FlatReads(Example8(), "2.5E-1 / 4");
    Evaluates(Example9(), "007.5 - 1");
    FlatReads(Example9(), "007.5 - 1");
  }
}
