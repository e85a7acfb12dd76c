# A gentle introduction to Rust, modelled in Dafny

This project models the runnable core of the lessons in *A Gentle Introduction
to Rust* and proves what the lessons promise about it.

**The nom parsing lessons (the largest part).** The core is a small library
of parser combinators over text, modelled as pure functions:

- `tag_s!`, `digit`, `alpha`, `ws!`, `alt!`, `pair!`, `tuple!`, `opt!`, `complete!`;
- `map!`, `map_res!`, `recognize!`, `delimited!`, `do_parse!`;
- `fold_many0!`, `fold_many1!`, `many1!`.

Every parser returns one of three outcomes: `Done(rest, value)`, `Error(kind)`
or `Incomplete`. On top of the combinators sit:

- the greeting parsers;
- the integer and floating-point number parsers;
- the folds over lists of numbers and the `pointf` parsers;
- the two arithmetic grammars: `factor`/`term`/`expr` with numbers only, and with parenthesised sub-expressions.

The central theorems are these:

- Every printed expression tree parses back to its value (`Arithmetic.ExprEvaluates`). A leaf prints as any number text `floating_point` accepts: an optional sign, digits, an optional fraction and an optional exponent (`-3.0`, `1e2`, `2.5E-1`, `007.5`). This is what gives `*` and `/` precedence over `+` and `-`, and makes each level associate to the left.
- The number-only grammar does the same for trees without parentheses (`Arithmetic.FlatEvaluates`).

Each worked output of the lessons is a lemma.

**The smaller cores.** Each has its own module:

- the binary search tree with in-place `insert` and in-order `visit` (a class over heap nodes, specified by a tree value);
- the command dispatcher `Cli` with its `go` and `show` commands (a class whose `process` method is specified by a function);
- word-frequency counting with a sort by descending count (methods with loops, over a map and an array);
- the three "set to 10 if present, else insert 1" map updates;
- `make_set`, `intersection` and `to_set`;
- `pair` (split at the first delimiter), `array_to_str` and slice `sum`;
- `run` (empty check, trim and `i32` parse);
- the `Direction`, `Speed`, `Difficulty` and `Value` enums, `match_tuple`, `Person`;
- `factorial`, `by_ref`, `abs` and `clamp`.

**Shared support.** Two support modules model the standard-library calls the
lessons use:

- `Text`: decimal text of integers, and `str::parse` for bounded integers with Rust's error kinds.
- `Splitting`: `split`, `split_whitespace`, `trim` and `to_lowercase`.

Numbers are exact: `f64` values are Dafny `real`s, and division by zero gives
an absorbing `NonFinite` value instead of an IEEE infinity or NaN.

**Decisions about nom.** nom's own source is not part of this model. What each
combinator does is taken from the outputs the lessons print:

- `digit` and `alpha` on empty input are `Incomplete`.
- `tag_s!` on a proper prefix of its literal is `Incomplete`.
- `ws!` skipping never fails.
- `fold_many0!` stops with `Done` at the end of the input or where the item parser fails outright.
- An undecided first alternative of `alt!` does not hide a successful second one.

## Model

| member | source | states |
|---|---|---|
| Nom.ToResult | 09-parsing-with-nom/02-nom-returns.rs:35-40 | `to_result` is `Ok` exactly on `Done`, with its value and without the remainder; an error or an undecided outcome becomes the corresponding `Err` |
| Nom.Tag | 09-parsing-with-nom/01-parsing-text.rs:9-20 | `tag_s!`; Nom.TagSpec specifies it |
| Nom.TagSpec | 09-parsing-with-nom/01-parsing-text.rs:9-20 | `tag_s!` succeeds iff the input starts with the literal; then the value is the literal and literal + rest is the input; it is undecided iff the input is a proper prefix of the literal |
| Nom.TagPrefix | 09-parsing-with-nom/01-parsing-text.rs:9-20 | the literal followed by any text is read as the literal, leaving that text |
| Nom.ConsumesTag | 09-parsing-with-nom/01-parsing-text.rs:9-20 | every remainder of `tag_s!` is a suffix of its input |
| Nom.RunSpec | 09-parsing-with-nom/04-parsing-numbers.rs:7-23 | `digit`/`alpha` succeed iff the first character is in the class, are undecided exactly on empty input, fail with their own kind otherwise, and on success return the longest run, with the rest starting outside the class |
| Nom.RunOver | 09-parsing-with-nom/03-combining-parsers.rs:2-12 | a run of the class followed by text that cannot continue it is read whole |
| Nom.Ws | 09-parsing-with-nom/01-parsing-text.rs:24-35 | `ws!`; Nom.WsSkips specifies it |
| Nom.SkipSpace | 09-parsing-with-nom/01-parsing-text.rs:24-35 | what is left after skipping whitespace is a suffix of the input that does not start with whitespace |
| Nom.SkipSpaceOver | 09-parsing-with-nom/01-parsing-text.rs:24-35 | whitespace in front of text that does not start with whitespace is skipped exactly |
| Nom.WsSkips | 09-parsing-with-nom/01-parsing-text.rs:24-35 | `ws!(p)` succeeds iff `p` succeeds after the leading whitespace, and its remainder never starts with whitespace |
| Nom.ConsumesWs | 09-parsing-with-nom/01-parsing-text.rs:24-35 | `ws!` keeps remainders suffixes of the input |
| Nom.Alt | 09-parsing-with-nom/01-parsing-text.rs:37-50 | `alt!`; Nom.AltSpec specifies it |
| Nom.AltSpec | 09-parsing-with-nom/01-parsing-text.rs:37-50 | `alt!` succeeds iff either alternative succeeds, the first one winning; it fails outright iff both fail outright |
| Nom.AltFirst | 09-parsing-with-nom/01-parsing-text.rs:37-50 | when the first alternative succeeds its result is `alt!`'s result |
| Nom.AltSecond | 09-parsing-with-nom/01-parsing-text.rs:37-50 | when only the second alternative succeeds its result is `alt!`'s result |
| Nom.ConsumesAlt | 09-parsing-with-nom/01-parsing-text.rs:37-50 | `alt!` of consuming parsers consumes |
| Nom.PairDone | 09-parsing-with-nom/03-combining-parsers.rs:2-12 | when both halves succeed, `pair!` gives both values and the second half's remainder |
| Nom.PairParts | 09-parsing-with-nom/03-combining-parsers.rs:2-12 | `pair!` succeeds only if the first half succeeds and the second succeeds on what the first left |
| Nom.ConsumesPair | 09-parsing-with-nom/03-combining-parsers.rs:2-12 | `pair!` of consuming parsers consumes |
| Nom.Tuple3Of | 09-parsing-with-nom/05-multiple-matches.rs:24-33 | three successive matches make `tuple!`'s triple, with the last remainder |
| Nom.Tuple3Parts | 09-parsing-with-nom/05-multiple-matches.rs:24-33 | a successful `tuple!` had three successive successful matches |
| Nom.ConsumesTuple3 | 09-parsing-with-nom/05-multiple-matches.rs:24-33 | `tuple!` of consuming parsers consumes |
| Nom.Opt | 09-parsing-with-nom/03-combining-parsers.rs:14-25 | `opt!`; Nom.OptSpec specifies it |
| Nom.OptSpec | 09-parsing-with-nom/03-combining-parsers.rs:14-25 | `opt!` turns an outright failure into `None` without consuming, keeps a success as `Some`, and is undecided iff its parser is |
| Nom.ConsumesOpt | 09-parsing-with-nom/03-combining-parsers.rs:14-25 | `opt!` of a consuming parser consumes |
| Nom.Complete | 09-parsing-with-nom/03-combining-parsers.rs:28-38 | `complete!`; Nom.CompleteDecides specifies it |
| Nom.CompleteDecides | 09-parsing-with-nom/03-combining-parsers.rs:28-38 | `complete!` is never undecided, succeeds iff its parser does, and then with the same result |
| Nom.OptCompleteSucceeds | 09-parsing-with-nom/03-combining-parsers.rs:30-38 | `opt!(complete!(p))` always succeeds: with `p`'s value, or with `None` and nothing consumed |
| Nom.ConsumesComplete | 09-parsing-with-nom/03-combining-parsers.rs:30-38 | `complete!` of a consuming parser consumes |
| Nom.Recognize | 09-parsing-with-nom/04-parsing-numbers.rs:39-46 | `recognize!`; Nom.RecognizeSpec specifies it |
| Nom.RecognizeSpec | 09-parsing-with-nom/04-parsing-numbers.rs:39-46 | `recognize!(p)` succeeds iff `p` does, with `p`'s remainder, and the recognised text followed by the remainder is the input |
| Nom.RecognizeDone | 09-parsing-with-nom/04-parsing-numbers.rs:39-46 | the recognised text is exactly the prefix `p` consumed |
| Nom.ConsumesRecognize | 09-parsing-with-nom/04-parsing-numbers.rs:39-46 | `recognize!` of a consuming parser consumes |
| Nom.ConsumesMap | 09-parsing-with-nom/04-parsing-numbers.rs:7-13 | `map!` of a consuming parser consumes |
| Nom.MapRes | 09-parsing-with-nom/04-parsing-numbers.rs:85-87 | `map_res!`; Nom.ConsumesMapRes and Numbers.Float64Total specify it |
| Nom.ConsumesMapRes | 09-parsing-with-nom/04-parsing-numbers.rs:85-87 | `map_res!` of a consuming parser consumes |
| Nom.MapOf | 09-parsing-with-nom/04-parsing-numbers.rs:7-13 | `map!` applies the function to a successful value and keeps the remainder |
| Nom.Delimited | 09-parsing-with-nom/06-parsing-arithmetic.rs:61-66 | `delimited!`; Nom.DelimitedOf specifies it |
| Nom.DelimitedOf | 09-parsing-with-nom/06-parsing-arithmetic.rs:61-66 | `delimited!` over three successive matches keeps only the middle value |
| Nom.ConsumesDelimited | 09-parsing-with-nom/06-parsing-arithmetic.rs:61-66 | `delimited!` of consuming parsers consumes |
| Nom.ConsumesThen | 09-parsing-with-nom/06-parsing-arithmetic.rs:7-20 | `do_parse!` whose parts consume, consumes |
| Nom.FoldMany0 | 09-parsing-with-nom/06-parsing-arithmetic.rs:7-20 | `fold_many0!`; Nom.FoldLoopStops, FoldLoopStep and ConsumesFoldMany0 specify it |
| Nom.FoldLoopStops | 09-parsing-with-nom/06-parsing-arithmetic.rs:7-20 | a fold stops only at the end of the input or where the item parser fails outright |
| Nom.FoldLoopStep | 09-parsing-with-nom/06-parsing-arithmetic.rs:7-20 | one advancing match applies the fold step to the accumulator and goes on from the remainder |
| Nom.ConsumesFoldLoop | 09-parsing-with-nom/06-parsing-arithmetic.rs:7-20 | a fold's remainder is a suffix of its input |
| Nom.ConsumesFoldMany0 | 09-parsing-with-nom/06-parsing-arithmetic.rs:7-20 | `fold_many0!` of a consuming parser consumes |
| Nom.FoldMany1 | 09-parsing-with-nom/05-multiple-matches.rs:11-17 | `fold_many1!`; Nom.FoldMany1NeedsOne, FoldMany1Step and FoldMany1IsFoldOfMany1 specify it |
| Nom.ConsumesFoldMany1 | 09-parsing-with-nom/05-multiple-matches.rs:11-17 | `fold_many1!` of a consuming parser consumes |
| Nom.FoldMany1NeedsOne | 09-parsing-with-nom/05-multiple-matches.rs:11-20 | `fold_many1!` does not succeed where its first match does not, and fails with `Many1` where it fails outright |
| Nom.FoldMany1Step | 09-parsing-with-nom/05-multiple-matches.rs:11-17 | the first match of `fold_many1!` starts the fold from `f(init, v)` |
| Nom.Many1 | 09-parsing-with-nom/05-multiple-matches.rs:1 | `many1!`; Nom.Many1Spec specifies it |
| Nom.Many1Spec | 09-parsing-with-nom/05-multiple-matches.rs:1 | `many1!` collects at least one value, the first match's first, and fails with `Many1` where the first match fails outright |
| Nom.CollectKeeps | 09-parsing-with-nom/05-multiple-matches.rs:1 | collecting matches never drops a value already collected |
| Nom.FoldLeftSnoc | 09-parsing-with-nom/05-multiple-matches.rs:5-7 | the left fold of a list with one more value is the step applied to the fold of the list |
| Nom.FoldLoopFusion | 09-parsing-with-nom/05-multiple-matches.rs:11-20 | folding while reading equals collecting the values and folding the list afterwards |
| Nom.FoldMany1IsFoldOfMany1 | 09-parsing-with-nom/05-multiple-matches.rs:11-20 | `fold_many1!(p, init, f)` is the left fold of `f` over the values `many1!(p)` collects, on every input |
| Nom.DoParse3IsTuple3 | 09-parsing-with-nom/05-multiple-matches.rs:43-51 | `do_parse!` over three parsers reads what `tuple!` reads and builds its value from the first and third values |
| Greetings.GetGreeting | 09-parsing-with-nom/01-parsing-text.rs:39-48 | `ws!(alt!(tag_s!("hi") | tag_s!("bye")))`; Greetings.GetGreetingSpec states what it reads and rejects |
| Greetings.GetGreetingSpec | 09-parsing-with-nom/01-parsing-text.rs:39-48 | after leading whitespace, "hi" or "bye" is read and the whitespace after it skipped; text that can still grow into either word is undecided; anything else fails with `Alt` |
| Greetings.GreetingRead | 09-parsing-with-nom/02-nom-returns.rs:25-38 | a greeting word between runs of whitespace is read, leaving the text after the second run |
| Greetings.GreetingRejected | 09-parsing-with-nom/01-parsing-text.rs:43-50 | after leading whitespace, text of three or more characters that starts with neither 'b' nor "hi" fails with `Alt` |
| Greetings.FullGreeting | 09-parsing-with-nom/03-combining-parsers.rs:2-9 | `pair!(get_greeting, alpha)`; Greetings.FullGreetingBob and Nom.PairParts specify it |
| Greetings.FullGreetingOpt | 09-parsing-with-nom/03-combining-parsers.rs:15-20 | the name made optional with `opt!`; Greetings.FullGreetingOptAtEnd shows it undecided at the end of the input |
| Greetings.FullGreetingComplete | 09-parsing-with-nom/03-combining-parsers.rs:30-35 | `opt!(complete!(alpha))` for the name; Greetings.FullGreetingCompleteDecided specifies it |
| Greetings.FullGreetingCompleteDecided | 09-parsing-with-nom/03-combining-parsers.rs:30-38 | with `opt!(complete!(alpha))` the full greeting succeeds exactly when the greeting does, with the same greeting |
| Greetings.FullGreetingOptAtEnd | 09-parsing-with-nom/03-combining-parsers.rs:28 | without `complete!`, a greeting at the very end of the input leaves the full greeting undecided |
| Greetings.TagExample | 09-parsing-with-nom/01-parsing-text.rs:15-20 | `tag_s!("hi")` on "hi there" is `Done(" there", "hi")` |
| Greetings.WsExample | 09-parsing-with-nom/01-parsing-text.rs:29-33 | `ws!(tag_s!("hi"))` on "hi there" is `Done("there", "hi")` |
| Greetings.GetGreetingHi | 09-parsing-with-nom/01-parsing-text.rs:43-46 | " hi " gives `Done("", "hi")` |
| Greetings.GetGreetingBye | 09-parsing-with-nom/02-nom-returns.rs:35-40 | " bye " gives `Done("", "bye")`, and `to_result` of " bye  " is `Ok("bye")` |
| Greetings.GetGreetingFirstOnly | 09-parsing-with-nom/02-nom-returns.rs:32-38 | " bye hi" reads only the first greeting, leaving "hi" |
| Greetings.GetGreetingHola | 09-parsing-with-nom/02-nom-returns.rs:33-39 | "  hola " fails with `Alt` |
| Greetings.GetGreetingBeforeBob | 09-parsing-with-nom/03-combining-parsers.rs:11-12 | " hi Bob  " reads "hi" and leaves "Bob  " |
| Greetings.FullGreetingBob | 09-parsing-with-nom/03-combining-parsers.rs:11-24 | " hi Bob  " gives `Ok(("hi", "Bob"))` and, with the optional name, `Ok(("hi", Some("Bob")))` |
| Greetings.GetGreetingBeforeQuestion | 09-parsing-with-nom/03-combining-parsers.rs:23-25 | " bye ?" reads "bye" and leaves "?" |
| Greetings.FullGreetingNoName | 09-parsing-with-nom/03-combining-parsers.rs:23-25 | " bye ?" gives `Ok(("bye", None))` |
| Greetings.FullGreetingAtEnd | 09-parsing-with-nom/03-combining-parsers.rs:28-38 | " bye " is undecided with `opt!(alpha)` and gives `Ok(("bye", None))` with `opt!(complete!(alpha))` |
| Numbers.Int8 | 09-parsing-with-nom/04-parsing-numbers.rs:7-9 | `map!(digit, parse::<i8>)`; Numbers.Int8Spec specifies it |
| Numbers.Int8Spec | 09-parsing-with-nom/04-parsing-numbers.rs:7-9 | `int8` succeeds iff the input starts with a digit, fails with `Digit` otherwise, and on success converts the whole run of digits |
| Numbers.Int8Examples | 09-parsing-with-nom/04-parsing-numbers.rs:15-22 | "120" gives `Ok(120)`, "1200" consumes everything but gives `Err(Overflow)`, "x120" fails with `Digit` |
| Numbers.Int32Example | 09-parsing-with-nom/04-parsing-numbers.rs:18-23 | `int32("1202")` gives `Ok(1202)` |
| Numbers.ConsumesSignedDigits | 09-parsing-with-nom/04-parsing-numbers.rs:27-32 | `signed_digits` consumes |
| Numbers.SignOver | 09-parsing-with-nom/04-parsing-numbers.rs:27-32 | the optional sign of signed digits is read off their first character |
| Numbers.SignRead | 09-parsing-with-nom/04-parsing-numbers.rs:27-32 | a sign that was read is the one-character '+' or '-' at the front; without one nothing is consumed |
| Numbers.SignedDigitsRead | 09-parsing-with-nom/04-parsing-numbers.rs:27-32 | what `signed_digits` reads is the optional sign followed by digits, up to a non-digit |
| Numbers.SignedDigitsOver | 09-parsing-with-nom/04-parsing-numbers.rs:27-46 | signed digits followed by a non-digit are read as (sign, digits), and `maybe_signed_digits` recognises exactly their text |
| Numbers.SignedTextOf | 09-parsing-with-nom/04-parsing-numbers.rs:27-46 | an optional sign and digits make signed-digit text |
| Numbers.MaybeSignedDigitsShape | 09-parsing-with-nom/04-parsing-numbers.rs:41-46 | whatever `maybe_signed_digits` accepts is signed-digit text and nothing after it continues the digits |
| Numbers.SignedDigitsExamples | 09-parsing-with-nom/04-parsing-numbers.rs:34-46 | "4" gives `(None, "4")`, "+12" gives `(Some("+"), "12")`, and `maybe_signed_digits("+12")` is "+12" |
| Numbers.ConsumesFloatParts | 09-parsing-with-nom/04-parsing-numbers.rs:50-64 | the parts of `floating_point` consume |
| Numbers.PartsEnd | 09-parsing-with-nom/04-parsing-numbers.rs:50-64 | what follows each part of number text cannot continue that part |
| Numbers.FractionOver | 09-parsing-with-nom/04-parsing-numbers.rs:54-57 | a fraction text followed by a non-digit, non-exponent character is read whole (an empty one as `None`) |
| Numbers.ExponentOver | 09-parsing-with-nom/04-parsing-numbers.rs:58-61 | an exponent text followed by a non-digit is read whole (an empty one as `None`) |
| Numbers.FloatTailOver | 09-parsing-with-nom/04-parsing-numbers.rs:54-61 | a fraction text then an exponent text are read as the two optional parts |
| Numbers.FloatPartsOver | 09-parsing-with-nom/04-parsing-numbers.rs:50-64 | number text followed by a character that cannot continue it is read as its three parts |
| Numbers.FloatingPoint | 09-parsing-with-nom/04-parsing-numbers.rs:50-64 | `recognize!` of sign, digits, fraction and exponent; Numbers.FloatingPointShape and FloatingPointOver specify it |
| Numbers.FloatingPointOver | 09-parsing-with-nom/04-parsing-numbers.rs:50-64 | `floating_point` recognises exactly such number text |
| Numbers.FloatingPointShape | 09-parsing-with-nom/04-parsing-numbers.rs:50-64 | everything `floating_point` recognises is number text and rebuilds the input with the remainder |
| Numbers.FloatPartsShape | 09-parsing-with-nom/04-parsing-numbers.rs:50-64 | a successful parse of the parts consumed digits, a fraction text and an exponent text |
| Numbers.FractionTextOf | 09-parsing-with-nom/04-parsing-numbers.rs:54-57 | a '.' followed by digits is fraction text |
| Numbers.FractionShape | 09-parsing-with-nom/04-parsing-numbers.rs:54-57 | the optional fraction always succeeds and consumes a fraction text, possibly the empty one |
| Numbers.ExponentMark | 09-parsing-with-nom/04-parsing-numbers.rs:59 | the 'e' or 'E' of an exponent is one character |
| Numbers.ExponentTextOf | 09-parsing-with-nom/04-parsing-numbers.rs:58-61 | an exponent mark followed by signed digits is exponent text |
| Numbers.ExponentShape | 09-parsing-with-nom/04-parsing-numbers.rs:58-61 | the optional exponent always succeeds and consumes an exponent text |
| Numbers.FloatingPointWhole | 09-parsing-with-nom/04-parsing-numbers.rs:68-72 | complete number text is recognised entirely, with nothing left over |
| Numbers.FloatingPointSigned | 09-parsing-with-nom/04-parsing-numbers.rs:74-76 | "+2343", "-2343" and "2343" are recognised whole |
| Numbers.FloatingPointFraction | 09-parsing-with-nom/04-parsing-numbers.rs:77 | "2343.23" is recognised whole |
| Numbers.FloatingPointExponent | 09-parsing-with-nom/04-parsing-numbers.rs:78-79 | "2e20" and "2.0e-6" are recognised whole |
| Numbers.Scale | 09-parsing-with-nom/04-parsing-numbers.rs:85-87 | the exponent's factor is positive: 10^e for e >= 0, and below zero its product with 10^-e is 1 |
| Numbers.ScaleStep | 09-parsing-with-nom/04-parsing-numbers.rs:85-87 | raising the exponent by one multiplies the factor by ten |
| Numbers.ScaleInverse | 09-parsing-with-nom/04-parsing-numbers.rs:85-87 | the factors of e and -e multiply to 1 |
| Numbers.ScanExponentReads | 09-parsing-with-nom/04-parsing-numbers.rs:85-87 | the exponent reader gives back every integer from its decimal text, and every non-negative one from its text after a '+' |
| Numbers.SplitSign | 09-parsing-with-nom/04-parsing-numbers.rs:85-87 | on signed-digit text the rest is non-empty digits, and the sign applied to their value is the text's signed value |
| Numbers.ScanMantissa | 09-parsing-with-nom/04-parsing-numbers.rs:85-87 | the digits before and after the point are digits |
| Numbers.ScanDecimal | 09-parsing-with-nom/04-parsing-numbers.rs:85-87 | a converted number has at least one digit, all of them digits |
| Numbers.FromStrF64 | 09-parsing-with-nom/04-parsing-numbers.rs:85-87 | `from_str` succeeds exactly on decimal text |
| Numbers.DecimalOf | 09-parsing-with-nom/04-parsing-numbers.rs:85-87 | the decimal a number text spells has only digits |
| Numbers.ScanMantissaOver | 09-parsing-with-nom/04-parsing-numbers.rs:85-87 | digits, a fraction and an exponent text split back into those three parts |
| Numbers.SplitSignOver | 09-parsing-with-nom/04-parsing-numbers.rs:85-87 | signed-digit text splits into its sign and its digits |
| Numbers.ScanNumberText | 09-parsing-with-nom/04-parsing-numbers.rs:85-87 | every number text converts, to the decimal it spells |
| Numbers.Float64 | 09-parsing-with-nom/04-parsing-numbers.rs:85-87 | `map_res!(floating_point, parse::<f64>)`; Numbers.Float64Total and Float64Over specify it |
| Numbers.Float64Total | 09-parsing-with-nom/04-parsing-numbers.rs:85-87 | `map_res!` never rejects what `floating_point` recognises: `float64` succeeds exactly where `floating_point` does, with the same remainder |
| Numbers.Float64Over | 09-parsing-with-nom/04-parsing-numbers.rs:85-87 | number text followed by something that cannot continue it parses to its exact value |
| Numbers.WholeDecimal | 09-parsing-with-nom/04-parsing-numbers.rs:85-87 | a decimal without fraction or exponent is the value of its digits |
| Numbers.Float64Nat | 09-parsing-with-nom/05-multiple-matches.rs:19-20 | the decimal text of a natural number parses back to that number |
| MultipleMatches.FoldSum | 09-parsing-with-nom/05-multiple-matches.rs:11-17 | `fold_many1!(ws!(float64), 0.0, +)`; MultipleMatches.FoldSumIsSumOfFloats and FoldSumNeedsOne specify it |
| MultipleMatches.FoldSumIsSumOfFloats | 09-parsing-with-nom/05-multiple-matches.rs:1-20 | `fold_sum` is, on every input, the plain left fold of `+` from 0 over the numbers `many1!(ws!(float64))` collects |
| MultipleMatches.FoldSumNeedsOne | 09-parsing-with-nom/05-multiple-matches.rs:11-17 | `fold_sum` of the empty input does not succeed |
| MultipleMatches.NumberStep | 09-parsing-with-nom/05-multiple-matches.rs:11-17 | a number and the whitespace after it are read as that number |
| MultipleMatches.LastNumber | 09-parsing-with-nom/05-multiple-matches.rs:11-17 | a number at the end of the input is read whole |
| MultipleMatches.OneTwoThree | 09-parsing-with-nom/05-multiple-matches.rs:19-20 | "1 2 3" is read one number at a time: 1.0, 2.0, 3.0 |
| MultipleMatches.FoldThree | 09-parsing-with-nom/05-multiple-matches.rs:11-17 | three advancing matches, the last at the end of the input, fold in order |
| MultipleMatches.FloatsExample | 09-parsing-with-nom/05-multiple-matches.rs:1 | `many1!(ws!(float64))` reads "1 2 3" as [1.0, 2.0, 3.0] |
| MultipleMatches.FoldSumExample | 09-parsing-with-nom/05-multiple-matches.rs:19-20 | `fold_sum("1 2 3")` is 6, also through `to_result` |
| MultipleMatches.SumExample | 09-parsing-with-nom/05-multiple-matches.rs:5-7 | the iterator fold of [1, 2, 3] is 6 |
| MultipleMatches.PointF | 09-parsing-with-nom/05-multiple-matches.rs:43-51 | the `do_parse!` `pointf`; MultipleMatches.PointFIsPointTuple relates it to the tuple `pointf` |
| MultipleMatches.PointFIsPointTuple | 09-parsing-with-nom/05-multiple-matches.rs:24-51 | the `do_parse!` `pointf` reads exactly what the tuple `pointf` reads, keeping the two numbers and dropping the comma |
| MultipleMatches.PointTupleExample | 09-parsing-with-nom/05-multiple-matches.rs:32-33 | "20,52.2" gives (20, ",", 52.2) |
| MultipleMatches.PointFExample | 09-parsing-with-nom/05-multiple-matches.rs:53-54 | "20,52.2" gives `Point { x: 20, y: 52.2 }` |
| Arithmetic.Commute | 09-parsing-with-nom/06-parsing-arithmetic.rs:15-32 | `+` and `*` give the same result with their operands swapped |
| Arithmetic.Undo | 09-parsing-with-nom/06-parsing-arithmetic.rs:15-32 | subtracting undoes adding a finite value, and dividing undoes multiplying by a finite non-zero value |
| Arithmetic.Absorbs | 09-parsing-with-nom/06-parsing-arithmetic.rs:15-32 | a non-finite operand on either side makes all four operations non-finite |
| Arithmetic.Divide | 09-parsing-with-nom/06-parsing-arithmetic.rs:15-17 | the quotient is finite iff both operands are and the divisor is not zero; multiplying it by a finite non-zero divisor gives back the dividend |
| Arithmetic.Minus | 09-parsing-with-nom/06-parsing-arithmetic.rs:30-32 | the difference is finite iff both operands are; adding a finite subtrahend back gives the minuend |
| Arithmetic.ConsumesNumber | 09-parsing-with-nom/06-parsing-arithmetic.rs:3-5 | `ws!(float64)` consumes |
| Arithmetic.ConsumesOps | 09-parsing-with-nom/06-parsing-arithmetic.rs:7-35 | the operator parsers consume |
| Arithmetic.ConsumesFactorOver | 09-parsing-with-nom/06-parsing-arithmetic.rs:61-66 | `factor` over a consuming `expr` consumes |
| Arithmetic.ConsumesTermOver | 09-parsing-with-nom/06-parsing-arithmetic.rs:7-20 | `term` over a consuming `factor` consumes |
| Arithmetic.ConsumesExprOver | 09-parsing-with-nom/06-parsing-arithmetic.rs:22-35 | `expr` over a consuming `term` consumes |
| Arithmetic.FactorSuffix | 09-parsing-with-nom/06-parsing-arithmetic.rs:61-66 | the recursive `factor` leaves a suffix of its input |
| Arithmetic.TermSuffix | 09-parsing-with-nom/06-parsing-arithmetic.rs:7-20 | the recursive `term` leaves a suffix of its input |
| Arithmetic.ExprSuffix | 09-parsing-with-nom/06-parsing-arithmetic.rs:22-35 | the recursive `expr` leaves a suffix of its input |
| Arithmetic.ConsumesGrammar | 09-parsing-with-nom/06-parsing-arithmetic.rs:61-66 | all three recursive parsers consume |
| Arithmetic.Factor | 09-parsing-with-nom/06-parsing-arithmetic.rs:61-66 | the recursive `factor`; Arithmetic.FactorIsGrammar shows it is the lesson's grammar and Arithmetic.FactorRead what it reads |
| Arithmetic.FactorIsGrammar | 09-parsing-with-nom/06-parsing-arithmetic.rs:61-66 | the length-guarded `factor` is exactly `alt!(ws!(float64) \| ws!(delimited!("(", expr, ")")))` |
| Arithmetic.Term | 09-parsing-with-nom/06-parsing-arithmetic.rs:7-20 | the recursive `term`; Arithmetic.TermIsGrammar and Arithmetic.TermRead specify it |
| Arithmetic.TermIsGrammar | 09-parsing-with-nom/06-parsing-arithmetic.rs:7-20 | the length-guarded `term` is exactly the fold over `factor` |
| Arithmetic.Expr | 09-parsing-with-nom/06-parsing-arithmetic.rs:22-35 | the recursive `expr`; Arithmetic.ExprIsGrammar and Arithmetic.ExprEvaluates specify it |
| Arithmetic.ExprIsGrammar | 09-parsing-with-nom/06-parsing-arithmetic.rs:22-35 | the length-guarded `expr` is exactly the fold over `term` |
| Arithmetic.MulStops | 09-parsing-with-nom/06-parsing-arithmetic.rs:9-18 | at the end of the input, before ')' or before '+'/'-', the `term` fold adds no pair and returns its accumulator |
| Arithmetic.AddStops | 09-parsing-with-nom/06-parsing-arithmetic.rs:24-33 | at the end of the input or before ')' the `expr` fold returns its accumulator |
| Arithmetic.NoNumberAtParen | 09-parsing-with-nom/06-parsing-arithmetic.rs:61-66 | `float64` never reads text starting with '(' |
| Arithmetic.FactorNumber | 09-parsing-with-nom/06-parsing-arithmetic.rs:61-66 | where a number is read, `factor` reads that number |
| Arithmetic.FactorParen | 09-parsing-with-nom/06-parsing-arithmetic.rs:61-66 | where no number is read, `factor` reads a parenthesised expression |
| Arithmetic.Float64Lit | 09-parsing-with-nom/04-parsing-numbers.rs:85-87 | the text of any literal (an optional sign, digits, an optional fraction, an optional exponent) is read by `float64` to the value its spelling denotes |
| Arithmetic.Plain | 09-parsing-with-nom/04-parsing-numbers.rs:50-64 | the unsigned literal `whole.fraction` is a spelling `floating_point` accepts, printed as the digits of `whole` then `.` and `fraction`, with value `whole + fraction/10^len` |
| Arithmetic.LitDecimal | 09-parsing-with-nom/04-parsing-numbers.rs:50-64 | the text `whole.fraction` is number text, and the decimal it spells has the value `whole + fraction/10^len` |
| Arithmetic.LitNumber | 09-parsing-with-nom/06-parsing-arithmetic.rs:3-5 | any literal, signed or not, with or without fraction and exponent, among whitespace is read by `ws!(float64)` to its value |
| Arithmetic.LitFactor | 09-parsing-with-nom/06-parsing-arithmetic.rs:61-66 | any such literal among whitespace is read by `factor` to its value, by the first alternative |
| Arithmetic.NumberOf | 09-parsing-with-nom/06-parsing-arithmetic.rs:3-5 | number text among whitespace is read by `ws!(float64)` to its value |
| Arithmetic.DelimitedParen | 09-parsing-with-nom/06-parsing-arithmetic.rs:64 | parentheses around text `expr` reads give `expr`'s value |
| Arithmetic.ParenFactor | 09-parsing-with-nom/06-parsing-arithmetic.rs:61-66 | a parenthesised expression among whitespace is a factor with the expression's value |
| Arithmetic.MulStep | 09-parsing-with-nom/06-parsing-arithmetic.rs:9-18 | one `(op, factor)` pair multiplies or divides the accumulator, left to right |
| Arithmetic.AddStep | 09-parsing-with-nom/06-parsing-arithmetic.rs:24-33 | one `(op, term)` pair adds to or subtracts from the accumulator, left to right |
| Arithmetic.TermReads | 09-parsing-with-nom/06-parsing-arithmetic.rs:7-20 | over a factor parser that reads each factor, `term` reads a printed product chain and carries its left-associated value into the fold over what follows |
| Arithmetic.ExprReads | 09-parsing-with-nom/06-parsing-arithmetic.rs:22-35 | over a term parser that reads each term, `expr` reads a printed sum chain and carries its left-associated value into the fold over what follows |
| Arithmetic.TermReadsWhole | 09-parsing-with-nom/06-parsing-arithmetic.rs:7-20 | a term parser built over a factor parser that reads every factor reads the whole term |
| Arithmetic.FactorRead | 09-parsing-with-nom/06-parsing-arithmetic.rs:61-69 | the recursive `factor` reads every tree printed as a factor, a number or a parenthesised expression |
| Arithmetic.FactorsRead | 09-parsing-with-nom/06-parsing-arithmetic.rs:7-20 | `factor` reads every factor of a product chain |
| Arithmetic.TermRead | 09-parsing-with-nom/06-parsing-arithmetic.rs:7-20 | the recursive `term` reads every tree printed as a term |
| Arithmetic.TermsRead | 09-parsing-with-nom/06-parsing-arithmetic.rs:22-35 | `term` reads every term of a sum chain |
| Arithmetic.ExprEvaluates | 09-parsing-with-nom/06-parsing-arithmetic.rs:22-69 | the printed text of any expression tree, whose leaves may be any number text `floating_point` accepts (`-3.0`, `1e2`, `2.5E-1`, `007.5`), with any whitespace at each token boundary and around it, parses completely to the tree's value: `*` and `/` bind tighter than `+` and `-`, each level associates to the left, and parentheses nest |
| Arithmetic.NumbersRead | 09-parsing-with-nom/06-parsing-arithmetic.rs:3-20 | `ws!(float64)` reads every factor of a product of literals |
| Arithmetic.FlatTermsRead | 09-parsing-with-nom/06-parsing-arithmetic.rs:3-35 | the first `term` reads every term of a sum of products of literals |
| Arithmetic.FlatExpr | 09-parsing-with-nom/06-parsing-arithmetic.rs:3-35 | `expr` over the first `term` and `factor`; Arithmetic.FlatEvaluates specifies it |
| Arithmetic.FlatEvaluates | 09-parsing-with-nom/06-parsing-arithmetic.rs:3-35 | the first grammar parses any expression without parentheses, with the same leaves, spaced in any way, completely to its value, with the same precedence and associativity |
| Arithmetic.TenthsText | 09-parsing-with-nom/06-parsing-arithmetic.rs:55-57 | a literal with one digit on each side of the point is printed as "d.t" and has the value d + t/10 |
| Arithmetic.Evaluates | 09-parsing-with-nom/06-parsing-arithmetic.rs:48-53 | a text that prints a tree (any number text at its leaves) evaluates to the tree's value, also through `to_result` |
| Arithmetic.FlatReads | 09-parsing-with-nom/06-parsing-arithmetic.rs:48-53 | the same for the first grammar and a tree without parentheses |
| Arithmetic.Example1Text | 09-parsing-with-nom/06-parsing-arithmetic.rs:55 | "2.3" prints a flat tree of value 2.3 |
| Arithmetic.Example1Evaluates | 09-parsing-with-nom/06-parsing-arithmetic.rs:55 | `expr("2.3")` is 2.3: with no pairs the fold returns the first term |
| Arithmetic.Example1Flat | 09-parsing-with-nom/06-parsing-arithmetic.rs:55 | the first grammar gives the same |
| Arithmetic.Example2Text | 09-parsing-with-nom/06-parsing-arithmetic.rs:56 | "2.0 + 3.0 - 4.0" prints the left-associated tree, of value 1.0 |
| Arithmetic.Example2Evaluates | 09-parsing-with-nom/06-parsing-arithmetic.rs:56 | `expr("2.0 + 3.0 - 4.0")` is 1.0 |
| Arithmetic.Example2Flat | 09-parsing-with-nom/06-parsing-arithmetic.rs:56 | the first grammar gives the same |
| Arithmetic.Example3Text | 09-parsing-with-nom/06-parsing-arithmetic.rs:57 | "2.0 * 3.0 - 4.0" (the text `stringify!` gives) and "2.0*3.0 - 4.0" (as the lesson writes it) print (2.0*3.0) - 4.0, of value 2.0 |
| Arithmetic.Example3Evaluates | 09-parsing-with-nom/06-parsing-arithmetic.rs:57 | `expr` reads both "2.0 * 3.0 - 4.0" and "2.0*3.0 - 4.0" to 2.0 |
| Arithmetic.Example3Flat | 09-parsing-with-nom/06-parsing-arithmetic.rs:57 | the first grammar gives the same |
| Arithmetic.Example4Text | 09-parsing-with-nom/06-parsing-arithmetic.rs:68 | "2.2 * (1.1 + 4.5) / 3.4", the text `stringify!` gives, prints (2.2*(1.1 + 4.5))/3.4 |
| Arithmetic.Example4Value | 09-parsing-with-nom/06-parsing-arithmetic.rs:68 | that tree's value is 2.2*(1.1 + 4.5)/3.4 |
| Arithmetic.Example4Evaluates | 09-parsing-with-nom/06-parsing-arithmetic.rs:68 | `expr` reads "2.2 * (1.1 + 4.5) / 3.4" to 2.2*(1.1 + 4.5)/3.4, the parenthesised sum acting as one factor |
| Arithmetic.Example5Text | 09-parsing-with-nom/06-parsing-arithmetic.rs:69 | "(1.0 + 2.0) * (3.0 + 4.0 * (5.0 + 6.0))", the text `stringify!` gives, prints the nested tree |
| Arithmetic.Example5Value | 09-parsing-with-nom/06-parsing-arithmetic.rs:69 | that tree's value is 141 |
| Arithmetic.Example5Evaluates | 09-parsing-with-nom/06-parsing-arithmetic.rs:69 | `expr` reads "(1.0 + 2.0) * (3.0 + 4.0 * (5.0 + 6.0))" to 141 |
| Arithmetic.SpelledValues | 09-parsing-with-nom/04-parsing-numbers.rs:50-64 | `-3.0`, `1e2`, `2.5E-1`, `007.5`, `1` and `4` are spellings `floating_point` accepts, of values -3, 100, 0.25, 7.5, 1 and 4 |
| Arithmetic.Example6Text | 09-parsing-with-nom/06-parsing-arithmetic.rs:3-5 | "2.0 * -3.0" prints a product whose right factor is a negative literal, of value -6 |
| Arithmetic.Example7Text | 09-parsing-with-nom/06-parsing-arithmetic.rs:3-5 | "1e2 + 1" prints a sum of an exponent literal and a bare integer, of value 101 |
| Arithmetic.Example8Text | 09-parsing-with-nom/06-parsing-arithmetic.rs:3-5 | "2.5E-1 / 4" prints a quotient with a negative exponent, of value 0.0625 |
| Arithmetic.Example9Text | 09-parsing-with-nom/06-parsing-arithmetic.rs:3-5 | "007.5 - 1" prints a difference with a zero-padded literal, of value 6.5 |
| Arithmetic.SpelledExamplesEvaluate | 09-parsing-with-nom/06-parsing-arithmetic.rs:61-66 | both grammars read "2.0 * -3.0", "1e2 + 1", "2.5E-1 / 4" and "007.5 - 1" completely to -6, 101, 0.0625 and 6.5 |
| BinaryTree.LessIrreflexive | 02-structs-enums-matching/22-struct5.rs:79-81 | no string is less than itself |
| BinaryTree.LessTransitive | 02-structs-enums-matching/22-struct5.rs:79-81 | string order is transitive |
| BinaryTree.LessTotal | 02-structs-enums-matching/22-struct5.rs:79-81 | two different strings are ordered one way and never both |
| BinaryTree.InsertInto | 02-structs-enums-matching/23-struct6.rs:34-46 | `insert` on values; BinaryTree.InsertPayloads, InsertSize and InsertOrdered specify it |
| BinaryTree.InsertPayloads | 02-structs-enums-matching/23-struct6.rs:34-46 | `insert` adds exactly `data` to the payloads and keeps every other |
| BinaryTree.InsertSize | 02-structs-enums-matching/23-struct6.rs:34-46 | `insert` adds exactly one node |
| BinaryTree.InsertOrdered | 02-structs-enums-matching/23-struct6.rs:34-46 | `insert` keeps the order: everything left of a node is less than its payload, nothing right of it is |
| BinaryTree.InOrderPayloads | 02-structs-enums-matching/22-struct5.rs:138-147 | `visit` goes through every payload once |
| BinaryTree.InOrderSorted | 02-structs-enums-matching/22-struct5.rs:136-154 | the in-order traversal of an ordered tree comes out sorted |
| BinaryTree.Node.SetLeft | 02-structs-enums-matching/23-struct6.rs:26-28 | `set_left` makes the node the left child; the payload and the right child do not change |
| BinaryTree.Node.SetRight | 02-structs-enums-matching/23-struct6.rs:30-32 | `set_right` makes the node the right child; the payload and the left child do not change |
| BinaryTree.Node.Insert | 02-structs-enums-matching/23-struct6.rs:34-46 | after the in-place insert, the tree under the node is the value insert of the tree before; only fresh nodes are added, and the root payload does not change |
| BinaryTree.Node.Dump | 02-structs-enums-matching/22-struct5.rs:52-73 | the `{:#?}` dump is the tree under the node |
| BinaryTree.Node.Visit | 02-structs-enums-matching/22-struct5.rs:138-147 | `visit` yields the left subtree's payloads, the payload, then the right subtree's |
| BinaryTree.SetChildrenExample | 02-structs-enums-matching/22-struct5.rs:47-73 | "root" with `set_left("left")` and `set_right("right")` has two leaf children |
| BinaryTree.ExampleTree | 02-structs-enums-matching/22-struct5.rs:100-133 | inserting "one", "two", "four" under "root" gives the lesson's tree |
| BinaryTree.InsertExample | 02-structs-enums-matching/22-struct5.rs:100-154 | the in-place inserts build that tree, and visiting it yields four, one, root, two |
| Interactive.OkOf | 05-standard-library-containers/05-sets2.rs:78-80 | `ok(n)` is a success with non-empty text |
| Interactive.OkOfParses | 05-standard-library-containers/05-sets2.rs:106 | the text `ok(n)` reports parses back to `n` |
| Interactive.Cli.Cmd | 05-standard-library-containers/05-sets2.rs:40-44 | `cmd` stores the callback under the name, replacing any earlier one, and leaves the data alone |
| Interactive.Cli.Process | 05-standard-library-containers/05-sets2.rs:49-61 | `process` leaves the commands alone and sets the data and result the dispatch of the line gives |
| Interactive.Dispatch | 05-standard-library-containers/05-sets2.rs:51-60 | the body of `process`; Interactive.DispatchBlank, DispatchWords, DispatchKnown and DispatchUnknown specify it |
| Interactive.DispatchBlank | 05-standard-library-containers/05-sets2.rs:51-55 | a blank line gives `Ok("")` and runs nothing |
| Interactive.DispatchWords | 05-standard-library-containers/05-sets2.rs:51-60 | a line whose words are a name and arguments runs the name's command on the data and the arguments, or gives "no such command" |
| Interactive.CommandLine | 05-standard-library-containers/05-sets2.rs:51 | words joined by single spaces split back into those words |
| Interactive.DispatchKnown | 05-standard-library-containers/05-sets2.rs:57-58 | a known command gets the data and the remaining words, in order |
| Interactive.DispatchUnknown | 05-standard-library-containers/05-sets2.rs:57-60 | an unknown first word gives "no such command" and leaves the data unchanged |
| Interactive.GoNeedsArgument | 05-standard-library-containers/05-sets2.rs:99 | `go` with no arguments gives "need 1 argument" and leaves the answer unchanged |
| Interactive.GoStores | 05-standard-library-containers/05-sets2.rs:100-106 | `go n` stores `n` and reports its text; extra arguments are ignored |
| Interactive.GoRejects | 05-standard-library-containers/05-sets2.rs:100-103 | an argument starting with neither a digit nor a sign gives "invalid digit found in string" and leaves the answer unchanged |
| Interactive.ShowReports | 05-standard-library-containers/05-sets2.rs:109-111 | `show` leaves the data unchanged, and its report parses back to the answer |
| Interactive.SessionGo32 | 05-standard-library-containers/05-sets2.rs:119-121 | "go 32" sets the answer to 32 and gives `Ok("32")` |
| Interactive.SessionShow | 05-standard-library-containers/05-sets2.rs:122-123 | "show" then gives `Ok("32")` |
| Interactive.SessionGoop | 05-standard-library-containers/05-sets2.rs:124-125 | "goop one two three" gives "no such command" and changes nothing |
| Interactive.SessionGo42 | 05-standard-library-containers/05-sets2.rs:126-128 | "go 42 one two three" sets 42 and gives `Ok("42")` |
| Interactive.GoFortyTwo | 05-standard-library-containers/05-sets2.rs:126-128 | `go` with "42" and three more words stores 42 |
| Interactive.SessionGoBoo | 05-standard-library-containers/05-sets2.rs:129-130 | "go boo!" gives "invalid digit found in string" and changes nothing |
| Interactive.SetAndShow | 05-standard-library-containers/05-sets2.rs:96-123 | with both commands registered, "go 32" then "show" give `Ok("32")` twice and leave the answer at 32 |
| Interactive.MisuseAndReset | 05-standard-library-containers/05-sets2.rs:124-130 | the next three lines give the lesson's three results and leave the answer at 42 |
| Interactive.Session | 05-standard-library-containers/05-sets2.rs:96-130 | the whole session gives the five results the lesson prints |
| WordCount.Pieces | 05-standard-library-containers/03-maps2.rs:7-9 | there is one more piece than there are non-alphabetic characters |
| WordCount.Tally | 05-standard-library-containers/03-maps2.rs:7-13 | the counting loop's map, on values; WordCount.TallyCounts and TallyAbsent specify it |
| WordCount.TallyCounts | 05-standard-library-containers/03-maps2.rs:7-13 | the map holds exactly the words counted, each with the number of times it occurs |
| WordCount.TallyAbsent | 05-standard-library-containers/03-maps2.rs:11-12 | a word that never occurs is not in the map |
| WordCount.CountWords | 05-standard-library-containers/03-maps2.rs:5-13 | the counting loop builds the tally of the lowercased pieces |
| WordCount.AdjacentDelimiters | 05-standard-library-containers/03-maps2.rs:53 | two delimiters in a row make an empty piece, which is counted |
| WordCount.Entries | 05-standard-library-containers/03-maps2.rs:19 | the vector holds every entry of the map exactly once |
| WordCount.ItemsWithout | 05-standard-library-containers/03-maps2.rs:19 | taking a key out of the map takes exactly its entry out of the entries |
| WordCount.SortByCount | 05-standard-library-containers/03-maps2.rs:23 | the sort leaves the entries in non-increasing count order and a permutation of what they were |
| WordCount.SinkLeft | 05-standard-library-containers/03-maps2.rs:23 | one insertion step sorts one more entry into place, permuting the array |
| WordCount.Swap | 05-standard-library-containers/03-maps2.rs:23 | exchanging two entries permutes the array |
| WordCount.Top | 05-standard-library-containers/03-maps2.rs:26 | `take(20)` is the first min(20, n) entries |
| WordCount.TopIsMostFrequent | 05-standard-library-containers/03-maps2.rs:19-28 | no reported entry has a smaller count than any entry left out |
| WordCount.MostCommon | 05-standard-library-containers/03-maps2.rs:5-28 | the sorted entries are a permutation of the word counts, in descending order, and the report is their first twenty |
| WordSets.ToSet | 05-standard-library-containers/04-sets1.rs:34-44 | `to_set` has exactly the iterated items as members, and no more members than items |
| WordSets.MakeSet | 05-standard-library-containers/04-sets1.rs:7-9 | `make_set` has exactly the whitespace-separated words as members |
| WordSets.MakeOwnedSet | 05-standard-library-containers/04-sets1.rs:54-56 | the owned-`String` `make_set` has exactly the same members |
| WordSets.OwnedSameMembers | 05-standard-library-containers/04-sets1.rs:54-56 | the two `make_set` versions give the same set |
| WordSets.Intersect | 05-standard-library-containers/04-sets1.rs:24-26 | `intersection` has exactly the words in both sets |
| WordSets.MakeSetMembers | 05-standard-library-containers/04-sets1.rs:7-9 | a word is in the set iff it is a non-empty piece of the whitespace split |
| WordSets.ToSetRepeats | 05-standard-library-containers/04-sets1.rs:18 | inserting an item already present changes nothing |
| WordSets.FruitExample | 05-standard-library-containers/04-sets1.rs:12-18 | "apple orange pear orange" gives the three fruit, so the repeat adds nothing |
| WordSets.IntersectionExample | 05-standard-library-containers/04-sets1.rs:21-27 | the fruit and the colours share only "orange" |
| Upsert.SetOrInsert | 10-pain-points/03-mutable-references.rs:8-12 | the key ends up present, with 10 if it was there and 1 if not; every other key keeps its presence and value |
| Upsert.SetOrInsertSize | 10-pain-points/03-mutable-references.rs:8-12 | the map grows by one exactly when the key was absent |
| Upsert.SetOrInsertTwice | 10-pain-points/03-mutable-references.rs:8-12 | running the update twice leaves the key at 10 |
| Upsert.GetMutOrInsert | 10-pain-points/03-mutable-references.rs:8-12 | the `get_mut`/`insert` version makes that update |
| Upsert.WithFoundFlag | 10-pain-points/03-mutable-references.rs:16-23 | the found-flag version makes the same update |
| Upsert.EntryOf | 10-pain-points/03-mutable-references.rs:29-30 | `entry` is `Occupied` with the stored value iff the key is present, `Vacant` otherwise |
| Upsert.ThroughEntry | 10-pain-points/03-mutable-references.rs:29-36 | the entry-API version makes the same update |
| Upsert.Lesson | 10-pain-points/03-mutable-references.rs:4-12 | from {one: 1, two: 2} the update gives {one: 10, two: 2} |
| Upsert.Vacancy | 10-pain-points/03-mutable-references.rs:29-36 | on a map without "one" the update inserts it with 1 and keeps "two" |
| SplitPair.Find | 10-pain-points/04-references-lifetimes.rs:6 | `find` gives nothing iff the character is absent, otherwise its first position |
| SplitPair.Pair | 10-pain-points/04-references-lifetimes.rs:5-11 | when `ch` occurs, before + ch + after is `s` and `before` has no `ch`; when it does not, the result is `(s, "")` |
| SplitPair.PairUnique | 10-pain-points/04-references-lifetimes.rs:5-11 | joining two texts at a `ch` the first lacks splits back into them |
| SplitPair.HelloDolly | 10-pain-points/04-references-lifetimes.rs:13-16 | `pair("hello:dolly", ':')` is ("hello", "dolly") |
| SplitPair.NoDelimiter | 10-pain-points/04-references-lifetimes.rs:8-10 | `pair("hello", ':')` has no delimiter to split at, so it is ("hello", "") |
| Directions.Direction.AsStr | 02-structs-enums-matching/16-enum1.rs:18-25 | every direction has a non-empty name |
| Directions.Direction.Next | 02-structs-enums-matching/16-enum1.rs:41-49 | the successor of each direction, a quarter turn clockwise; Directions.NoFixedPoint, FourSteps and StepsPeriodic state the cycle it makes |
| Directions.AsStrInjective | 02-structs-enums-matching/16-enum1.rs:18-25 | the four names are distinct |
| Directions.NoFixedPoint | 02-structs-enums-matching/16-enum1.rs:41-49 | no direction is its own successor or its successor's successor |
| Directions.FourSteps | 02-structs-enums-matching/16-enum1.rs:41-49 | four steps of `next` return to the start |
| Directions.StepsPeriodic | 02-structs-enums-matching/16-enum1.rs:41-49 | `n` steps are `n % 4` steps |
| Directions.StepsAdd | 02-structs-enums-matching/16-enum1.rs:41-49 | `m + n` steps are `m` steps then `n` steps |
| Directions.Cycle | 02-structs-enums-matching/16-enum1.rs:52-56 | the loop sees the start, then each successor in turn |
| Directions.Lesson | 02-structs-enums-matching/16-enum1.rs:52-64 | from `Left`, eight steps show Left Up Right Down Left Up Right Down |
| Discriminants.Speed.AsU32 | 02-structs-enums-matching/17-enum2.rs:4-13 | `as u32` gives the discriminants 10, 20 and 50; Discriminants.SpeedOrderMatchesValues and SpeedExamples state what follows from them |
| Discriminants.SpeedOrderMatchesValues | 02-structs-enums-matching/17-enum2.rs:4-8 | the derived order of `Speed` agrees with its discriminants, and so does equality |
| Discriminants.SpeedExamples | 02-structs-enums-matching/17-enum2.rs:4-13 | `Fast > Slow`, `Medium != Slow`, and `Slow as u32` is 10 |
| Discriminants.Difficulty.AsU32 | 02-structs-enums-matching/17-enum2.rs:17-21 | each `Difficulty` value is one more than its position, counting from `Easy = 1` |
| Discriminants.DifficultyIncrements | 02-structs-enums-matching/17-enum2.rs:17-21 | each variant without a value is the previous one plus one |
| Values.Value.ToStr | 02-structs-enums-matching/18-enum3.rs:91-98 | `to_str` is `Some` exactly on a `Str`, with its text |
| Values.Value.ToStrIfLet | 02-structs-enums-matching/18-enum3.rs:108-114 | the if-let `to_str` returns `Some(s)` only for `Str(s)` |
| Values.ToStrSame | 02-structs-enums-matching/18-enum3.rs:106-114 | the two `to_str` versions agree on every value |
| Values.OneVariant | 02-structs-enums-matching/18-enum3.rs:7-11 | a `Value` is exactly one of `Number`, `Str` and `Bool` |
| Values.ToStrExamples | 02-structs-enums-matching/18-enum3.rs:99-101 | `Str("hello")` gives `Some("hello")`; numbers and booleans give `None` |
| TuplePatterns.MatchTuple | 02-structs-enums-matching/19-match2.rs:30-41 | `(0, s)` gives "zero s" for every `s`, `(1, "hello")` gives "hello one!", and exactly the other tuples fall to the catch-all arm |
| TuplePatterns.ZeroHello | 02-structs-enums-matching/19-match2.rs:31-33 | `(0, "hello")` is taken by the first arm |
| TuplePatterns.OneGuardFails | 02-structs-enums-matching/19-match2.rs:35-37 | `(1, s)` with another `s` falls through the guard to the catch-all |
| TuplePatterns.Answer | 02-structs-enums-matching/19-match2.rs:51-54 | "yes" exactly for `(42, "answer")`, otherwise "no" |
| TuplePatterns.AnswerExample | 02-structs-enums-matching/19-match2.rs:51-54 | `(42, "answer")` gives "yes" and near misses give "no" |
| People.Person.FullName | 02-structs-enums-matching/07-struct3.rs:8-10 | the full name is the first name, one space, the last name |
| People.Person.Copy | 02-structs-enums-matching/07-struct3.rs:18-20 | `copy` makes a new person with the same names |
| People.Person.SetFirstName | 02-structs-enums-matching/07-struct3.rs:23-25 | only the first name changes |
| People.Person.ToTuple | 02-structs-enums-matching/07-struct3.rs:28-30 | the names, first then last |
| People.FullNameSplits | 02-structs-enums-matching/07-struct3.rs:8-10 | a full name splits back into its two names at its first space when the first name has none |
| People.Lesson | 02-structs-enums-matching/07-struct3.rs:14-15 | "John Smith"; a copy keeps both names after the original's first name changes |
| BoxedErrors.Run | 06-error-handling/03-error2.rs:12-18 | the empty string, and only it, gives the "empty string" error; otherwise the result is the `i32` parse of the trimmed text, success or parse error |
| BoxedErrors.RunDecimal | 06-error-handling/03-error2.rs:12-18 | the decimal text of any `i32`, with whitespace around it, runs to that number |
| BoxedErrors.TrimAround | 06-error-handling/03-error2.rs:17 | trimming whitespace off both ends gives back the text between |
| BoxedErrors.RunBlank | 06-error-handling/03-error2.rs:12-18 | whitespace-only text gets past the empty check and fails to parse as empty |
| BoxedErrors.Lesson | 06-error-handling/03-error2.rs:20-27 | "23" gives `Ok(23)`, "2x" gives `InvalidDigit`, "" gives the "empty string" error |
| ArrayText.Texts | 01-basics/31-string3.rs:9 | each element's `to_string` text, in order |
| ArrayText.ListedSnoc | 01-basics/31-string3.rs:6-11 | each element appends its text and a comma |
| ArrayText.ListedJoin | 01-basics/31-string3.rs:6-12 | the loop's text is the texts joined by commas, with one trailing comma |
| ArrayText.PopAndClose | 01-basics/31-string3.rs:12-13 | `pop` then `push(']')` turns the loop's text into the rendering |
| ArrayText.AppendOne | 01-basics/31-string3.rs:9-10 | one turn of the loop adds the next element's text and a comma |
| ArrayText.ArrayToStr | 01-basics/31-string3.rs:3-15 | `array_to_str` gives "[", the elements' texts joined by ",", "]"; "]" for an empty slice |
| ArrayText.RenderedReadsBack | 01-basics/31-string3.rs:3-15 | for a non-empty slice the text is bracketed, its comma-separated pieces are the elements' texts, and each parses back to its element |
| ArrayText.EmptySlice | 01-basics/31-string3.rs:5-13 | for an empty slice `pop` removes the '[' and leaves "]" |
| ArrayText.RenderedTens | 01-basics/31-string3.rs:18 | [10, 20, 30] renders as "[10,20,30]" |
| ArrayText.Lesson | 01-basics/31-string3.rs:17-23 | the formatted result is "hello [10,20,30]" |
| SliceSum.TotalAppend | 01-basics/17-array2.rs:9-15 | the sum of two slices one after the other is the sum of their sums |
| SliceSum.Sum | 01-basics/17-array2.rs:9-15 | the loop returns the sum of the slice; 0 for an empty one |
| SliceSum.Lesson | 01-basics/17-array2.rs:17-22 | `sum(&[10, 20, 30, 40])` is 100 |
| Recursion.Factorial | 01-basics/12-fun3.rs:4-10 | `factorial(n)` is at least 1 |
| Recursion.FactorialGrows | 01-basics/12-fun3.rs:4-10 | factorials never shrink as `n` grows |
| Recursion.FactorialOfTwenty | 01-basics/12-fun3.rs:4-10 | 20! is 2432902008176640000 |
| Recursion.FactorialFits | 01-basics/12-fun3.rs:4-10 | the result fits in a `u64` exactly for `n <= 20` |
| Recursion.ByRef | 01-basics/12-fun3.rs:14-16 | computes `*x + 1` below `i32::MAX`; its contract is that sum and nothing more, the lesson's values are in `ByRefExamples` |
| Recursion.ByRefExamples | 01-basics/12-fun3.rs:18-24 | `by_ref(&10)` is 11 and `by_ref(&41)` is 42 |
| RealFunctions.Abs | 01-basics/11-fun2.rs:11-17 | `abs(x)` is never negative and is `x` or `-x` |
| RealFunctions.AbsSymmetric | 01-basics/11-fun2.rs:11-17 | a number and its negation have the same absolute value |
| RealFunctions.Clamp | 01-basics/11-fun2.rs:20-28 | below the range gives `x1`; inside gives `x`; above it gives `x2`; for a proper range the result lies in `[x1, x2]` |
| RealFunctions.ClampIdempotent | 01-basics/11-fun2.rs:20-28 | clamping twice is clamping once |
| RealFunctions.ClampMonotonic | 01-basics/11-fun2.rs:20-28 | clamping keeps the order of its inputs |
| Text.ParseInt | 06-error-handling/03-error2.rs:17 | `str::parse` for a bounded integer: a success lies within the bounds, and the empty text is the `Empty` error |
| Text.ParseIntToString | 06-error-handling/03-error2.rs:17 | the decimal text of any in-range integer parses back to it |
| Text.ParseDigits | 09-parsing-with-nom/04-parsing-numbers.rs:7-21 | a run of digits converts to its value when it fits, and to `Overflow` otherwise |
| Text.AccumulateDigits | 09-parsing-with-nom/04-parsing-numbers.rs:7-21 | digit by digit, an in-range accumulation reaches the digits' value |
| Text.AccumulateOverflow | 09-parsing-with-nom/04-parsing-numbers.rs:16-21 | once the accumulated value is past the upper bound, the conversion reports `Overflow` |
| Text.NatToString | 01-basics/31-string3.rs:9 | the decimal text of a natural number is non-empty digits whose value is the number, with no leading zero |
| Text.IntToStringSpells | 01-basics/31-string3.rs:9 | an integer's text starts with '-' iff the integer is negative, and the rest is digits without a leading zero whose value is the magnitude |
| Splitting.Split | 05-standard-library-containers/03-maps2.rs:7 | `split` gives one more piece than there are delimiters, none holding a delimiter |
| Splitting.SplitRebuilds | 05-standard-library-containers/03-maps2.rs:7 | the pieces interleaved with the delimiters rebuild the text |
| Splitting.SplitJoin | 05-standard-library-containers/03-maps2.rs:7 | pieces without the delimiter, joined by it, split back into those pieces |
| Splitting.Words | 05-standard-library-containers/04-sets1.rs:8 | `split_whitespace` gives non-empty pieces without whitespace |
| Splitting.WordsMembers | 05-standard-library-containers/04-sets1.rs:8 | the words are exactly the non-empty pieces of the whitespace split |
| Splitting.WordsBlank | 05-standard-library-containers/05-sets2.rs:51-55 | a blank line has no words |
| Splitting.WordsOfSpaced | 05-standard-library-containers/05-sets2.rs:51 | words joined by single spaces split back into those words |
| Splitting.TrimStart | 06-error-handling/03-error2.rs:17 | the leading whitespace, and only that, is removed |
| Splitting.TrimEnd | 06-error-handling/03-error2.rs:17 | the trailing whitespace, and only that, is removed |
| Splitting.Trim | 06-error-handling/03-error2.rs:17 | `trim` gives text that neither starts nor ends with whitespace, taking off only whitespace |
| Splitting.TrimUntrimmed | 06-error-handling/03-error2.rs:17 | text without whitespace at its ends is unchanged by `trim` |
| Splitting.ToLowercase | 05-standard-library-containers/03-maps2.rs:9 | each character is lowercased and the length is kept |

## Left out

- The `Needed` size of `Incomplete` and nom's full error-kind taxonomy are not modelled. An undecided outcome carries no size, and errors carry only the kinds the lessons print.
- `dump` only prints; its three-way match is the `IResult` datatype itself.
- Numbers are exact reals, not IEEE-754 doubles. Rounding, infinities and NaN are not modelled: division by zero gives the absorbing `NonFinite` value. The relative-equality checks of the arithmetic lesson therefore become exact equalities.
- Numbers.FromStrF64: gives the exact value of the decimal text instead of the nearest `f64`.
- `ws!` and `alpha` use ASCII whitespace and ASCII letters. Unicode classes, case folding beyond ASCII and UTF-8 byte lengths are not modelled.
- The stdin loop `Cli::go` (05-sets2.rs:63-74) reads lines and prints. Only `process` is modelled.
- Interactive.Cli.Process: `callback(&mut self.data, ..)` mutating the data in place is modelled as a callback that returns the new data.
- The closure boxes and lifetimes of `Cli`, and `boxer`'s `Some(Box::new(..))`, have no counterpart. A child is a nullable node reference.
- BinaryTree.Node.Insert: the generic `Node<T>` is modelled with `String` payloads only. Rust's byte-wise string `<` is modelled as code-point order, which is the same order for valid UTF-8.
- HashMap and HashSet iteration order is not modelled: sets are Dafny sets, and `into_iter().collect()` is any order of the entries.
- WordCount.SortByCount: proves the descending order and the permutation; it does not prove that `sort_by` keeps equal counts in their earlier order.
- Printing of results (`println!`, `{:?}`, the "no match {:?}" text) is not modelled. The "no match" arm returns the unmatched tuple.
- SliceSum.Sum: requires every running total to fit in an `i32`, where the source would panic on overflow in a debug build.
- Recursion.ByRef: requires `x < i32::MAX`, where `*x + 1` would overflow.
- Recursion.Factorial: is over unbounded naturals. The `u64` overflow from 21 on is stated by `FactorialFits`, not enforced.
- RealFunctions.Abs and RealFunctions.Clamp: over exact reals; NaN inputs are not modelled.
- `Person::new` is not part of this model beyond the constructor that `copy` uses.
- Processes, files, threads, networking, foreign crates and trait-object demos are outside the modelled core.
