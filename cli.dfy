/**
 * The interactive prompt of the sets lesson: a `Cli` holds some data and a
 * map from command names to callbacks; `process` splits a line into words,
 * looks the first word up and runs its callback on the data and the rest of
 * the words. The lesson's two commands are `go`, which sets the answer, and
 * `show`, which reports it.
 */
module Interactive {
  import opened Text
  import opened Splitting

  /** `CliResult = Result<String, String>`. */
  datatype CliResult = Ok(text: string) | Err(message: string)

  /**
   * A callback `Fn(&mut D, &[&str]) -> CliResult`: it gets the data and the
   * arguments and gives back the data as it leaves it, with its result.
   */
  type Command<!D> = (D, seq<string>) -> (D, CliResult)

  /** `ok(n)`: the decimal text of an integer, as a success. */
  function OkOf(n: int): (r: CliResult)
    ensures r.Ok? && r.text != []
  {
    Ok(IntToString(n))
  }

  /** What `process` does with a line, given the callbacks and the data it starts from. */
  function Dispatch<D>(callbacks: map<string, Command<D>>, data: D, line: string): (D, CliResult) {
    var parts := Words(line);
    if parts == [] then (data, Ok(""))
    else if parts[0] in callbacks then callbacks[parts[0]](data, parts[1..])
    else (data, Err("no such command"))
  }

  /** `Cli`: the data the commands work on and the commands by name. */
  class Cli<D> {
    var data: D
    var callbacks: map<string, Command<D>>

    /** `Cli::new`: the data, and no commands yet. */
    constructor (data: D)
      ensures this.data == data && callbacks == map[]
    {
      this.data := data;
      callbacks := map[];
    }

    /** `cmd`: registers the callback under the name, replacing any earlier one. */
    method Cmd(name: string, callback: Command<D>)
      modifies this
      ensures callbacks == old(callbacks)[name := callback]
      ensures data == old(data)
    {
      callbacks := callbacks[name := callback];
    }

    /** `process`: runs the line's command on the data. */
    method Process(line: string) returns (res: CliResult)
      modifies this
      ensures callbacks == old(callbacks)
      ensures (data, res) == Dispatch(old(callbacks), old(data), line)
    {
      var parts := Words(line);
      if |parts| == 0 {
        return Ok("");
      }
      if parts[0] in callbacks {
        var callback := callbacks[parts[0]];
        var outcome := callback(data, parts[1..]);
        data, res := outcome.0, outcome.1;
      } else {
        res := Err("no such command");
      }
    }
  }

  /** A blank line runs nothing and leaves the data alone. */
  lemma DispatchBlank<D>(callbacks: map<string, Command<D>>, data: D, line: string)
    requires forall i :: 0 <= i < |line| ==> IsWhitespace(line[i])
    ensures Dispatch(callbacks, data, line) == (data, Ok(""))
  {
    WordsBlank(line);
  }

  /** `process` looks up the first word and passes on the others. */
  lemma DispatchWords<D>(callbacks: map<string, Command<D>>, data: D, line: string, name: string, args: seq<string>)
    requires Words(line) == [name] + args
    ensures Dispatch(callbacks, data, line) ==
      if name in callbacks then callbacks[name](data, args) else (data, Err("no such command"))
  {
    assert Words(line)[1..] == args;
  }

  /** Words joined by single spaces: the line the command `name` with arguments `args` is typed as. */
  lemma {:induction false} CommandLine(name: string, args: seq<string>)
    requires IsWord(name) && forall i :: 0 <= i < |args| ==> IsWord(args[i])
    ensures Words(Join([name] + args, ' ')) == [name] + args
  {
    var xs := [name] + args;
    forall i | 0 <= i < |xs| ensures xs[i] != [] && NoneIn(xs[i], IsWhitespace) {
      if i > 0 {
        assert xs[i] == args[i - 1];
      }
    }
    WordsOfSpaced(xs);
  }

  /** A known command gets the data and exactly the words after its name. */
  lemma DispatchKnown<D>(callbacks: map<string, Command<D>>, data: D, name: string, args: seq<string>)
    requires IsWord(name) && forall i :: 0 <= i < |args| ==> IsWord(args[i])
    requires name in callbacks
    ensures Dispatch(callbacks, data, Join([name] + args, ' ')) == callbacks[name](data, args)
  {
    CommandLine(name, args);
    DispatchWords(callbacks, data, Join([name] + args, ' '), name, args);
  }

  /** An unknown command is an error and leaves the data alone. */
  lemma DispatchUnknown<D>(callbacks: map<string, Command<D>>, data: D, name: string, args: seq<string>)
    requires IsWord(name) && forall i :: 0 <= i < |args| ==> IsWord(args[i])
    requires name !in callbacks
    ensures Dispatch(callbacks, data, Join([name] + args, ' ')) == (data, Err("no such command"))
  {
    CommandLine(name, args);
    DispatchWords(callbacks, data, Join([name] + args, ' '), name, args);
  }

  // ---------------------------------------------------------------------------
  // The lesson's commands

  /** The lesson's `Data`: one `i32`. */
  datatype Data = Data(answer: I32)

  /** `go n`: parses the first argument as an `i32` and makes it the answer. */
  function Go(data: Data, args: seq<string>): (Data, CliResult) {
    if |args| == 0 then (data, Err("need 1 argument"))
    else
      match ParseInt(args[0], I32Min, I32Max)
      case IntOk(n) => (Data(n), OkOf(n))
      case IntErr(k) => (data, Err(Description(k)))
  }

  /** `show`: the answer, unchanged. */
  function Show(data: Data, args: seq<string>): (Data, CliResult) {
    (data, OkOf(data.answer))
  }

  /** The text `ok` gives back for an `i32` parses to the same number. */
  lemma OkOfParses(n: I32)
    ensures ParseInt(OkOf(n).text, I32Min, I32Max) == IntOk(n)
  {
    ParseIntToString(n, I32Min, I32Max);
  }

  /** Without arguments `go` is an error and keeps the answer. */
  lemma GoNeedsArgument(data: Data)
    ensures Go(data, []) == (data, Err("need 1 argument"))
  {
  }

  /** `go` with the text of an `i32` stores it and reports it; later arguments are ignored. */
  lemma GoStores(data: Data, n: I32, rest: seq<string>)
    ensures Go(data, [IntToString(n)] + rest) == (Data(n), Ok(IntToString(n)))
  {
    ParseIntToString(n, I32Min, I32Max);
  }

  /** `go` with an argument that does not start with a digit or a sign keeps the answer. */
  lemma GoRejects(data: Data, arg: string, rest: seq<string>)
    requires arg != [] && !IsDigit(arg[0]) && arg[0] != '+' && arg[0] != '-'
    ensures Go(data, [arg] + rest) == (data, Err("invalid digit found in string"))
  {
  }

  /** `show` reports the answer and leaves the data alone, whatever the arguments. */
  lemma ShowReports(data: Data, args: seq<string>)
    ensures Show(data, args).0 == data
    ensures ParseInt(Show(data, args).1.text, I32Min, I32Max) == IntOk(data.answer)
  {
    OkOfParses(data.answer);
  }

  // ---------------------------------------------------------------------------
  // The lesson's session

  lemma LineGo32()
    ensures "go 32" == Join(["go", "32"], ' ')
  {
    JoinCons("go", ["32"], ' ');
    assert ["go"] + ["32"] == ["go", "32"];
  }

  lemma LineShow()
    ensures "show" == Join(["show"], ' ')
  {
  }

  lemma LineGoop()
    ensures "goop one two three" == Join(["goop", "one", "two", "three"], ' ')
  {
    JoinCons("two", ["three"], ' ');
    assert ["two"] + ["three"] == ["two", "three"];
    JoinCons("one", ["two", "three"], ' ');
    assert ["one"] + ["two", "three"] == ["one", "two", "three"];
    JoinCons("goop", ["one", "two", "three"], ' ');
    assert ["goop"] + ["one", "two", "three"] == ["goop", "one", "two", "three"];
  }

  lemma LineGo42()
    ensures "go 42 one two three" == Join(["go", "42", "one", "two", "three"], ' ')
  {
    JoinCons("two", ["three"], ' ');
    assert ["two"] + ["three"] == ["two", "three"];
    JoinCons("one", ["two", "three"], ' ');
    assert ["one"] + ["two", "three"] == ["one", "two", "three"];
    JoinCons("42", ["one", "two", "three"], ' ');
    assert ["42"] + ["one", "two", "three"] == ["42", "one", "two", "three"];
    JoinCons("go", ["42", "one", "two", "three"], ' ');
    assert ["go"] + ["42", "one", "two", "three"] == ["go", "42", "one", "two", "three"];
  }

  lemma LineGoBoo()
    ensures "go boo!" == Join(["go", "boo!"], ' ')
  {
    JoinCons("go", ["boo!"], ' ');
    assert ["go"] + ["boo!"] == ["go", "boo!"];
  }

  lemma ArgumentWords()
    ensures IsWord("go") && IsWord("goop") && IsWord("42")
    ensures IsWord("one") && IsWord("two") && IsWord("three")
  {
  }

  lemma ThirtyTwo()
    ensures IntToString(32) == "32"
  {
  }

  lemma FortyTwo()
    ensures IntToString(42) == "42"
  {
  }

  /** The commands the lesson registers. */
  function Commands(): map<string, Command<Data>> { map["go" := Go, "show" := Show] }

  lemma SessionGo32(d: Data)
    ensures Dispatch(Commands(), d, "go 32") == (Data(32), Ok("32"))
  {
    LineGo32();
    assert IsWord("go") && IsWord("32");
    DispatchKnown(Commands(), d, "go", ["32"]);
    GoStores(d, 32, []);
    ThirtyTwo();
    assert [IntToString(32)] + [] == ["32"];
  }

  lemma SessionShow()
    ensures Dispatch(Commands(), Data(32), "show") == (Data(32), Ok("32"))
  {
    LineShow();
    assert IsWord("show");
    DispatchKnown(Commands(), Data(32), "show", []);
    assert Commands()["show"] == Show;
    ThirtyTwo();
  }

  lemma SessionGoop(d: Data)
    ensures Dispatch(Commands(), d, "goop one two three") == (d, Err("no such command"))
  {
    LineGoop();
    ArgumentWords();
    DispatchUnknown(Commands(), d, "goop", ["one", "two", "three"]);
  }

  lemma SessionGo42(d: Data)
    ensures Dispatch(Commands(), d, "go 42 one two three") == (Data(42), Ok("42"))
  {
    LineGo42();
    ArgumentWords();
    DispatchKnown(Commands(), d, "go", ["42", "one", "two", "three"]);
    GoFortyTwo(d);
  }

  lemma GoFortyTwo(d: Data)
    ensures Go(d, ["42", "one", "two", "three"]) == (Data(42), Ok("42"))
  {
    GoStores(d, 42, ["one", "two", "three"]);
    FortyTwo();
    assert [IntToString(42)] + ["one", "two", "three"] == ["42", "one", "two", "three"];
  }

  lemma SessionGoBoo(d: Data)
    ensures Dispatch(Commands(), d, "go boo!") == (d, Err("invalid digit found in string"))
  {
    LineGoBoo();
    assert IsWord("go") && IsWord("boo!");
    DispatchKnown(Commands(), d, "go", ["boo!"]);
    GoRejects(d, "boo!", []);
  }

  /** `go 32`, then `show`, on the lesson's commands. */
  method SetAndShow(cli: Cli<Data>) returns (r1: CliResult, r2: CliResult)
    requires cli.callbacks == Commands()
    modifies cli
    ensures cli.callbacks == Commands() && cli.data == Data(32)
    ensures r1 == Ok("32") && r2 == Ok("32")
  {
    SessionGo32(cli.data);
    r1 := cli.Process("go 32");
    SessionShow();
    r2 := cli.Process("show");
  }

  /** `goop one two three`, `go 42 one two three`, then `go boo!`, on the lesson's commands. */
  method MisuseAndReset(cli: Cli<Data>) returns (r3: CliResult, r4: CliResult, r5: CliResult)
    requires cli.callbacks == Commands()
    modifies cli
    ensures cli.data == Data(42)
    ensures r3 == Err("no such command") && r4 == Ok("42") && r5 == Err("invalid digit found in string")
  {
    SessionGoop(cli.data);
    r3 := cli.Process("goop one two three");
    SessionGo42(cli.data);
    r4 := cli.Process("go 42 one two three");
    SessionGoBoo(cli.data);
    r5 := cli.Process("go boo!");
  }

  /**
   * The session after `cmd("go", ..)` and `cmd("show", ..)` on `Data{answer: 42}`:
   * `go 32`, `show`, `goop one two three`, `go 42 one two three`, `go boo!`.
   */
  method Session() returns (results: seq<CliResult>, answer: int)
    ensures results == [Ok("32"), Ok("32"), Err("no such command"), Ok("42"), Err("invalid digit found in string")]
    ensures answer == 42
  {
    var cli := new Cli(Data(42));
    cli.Cmd("go", Go);
    cli.Cmd("show", Show);
    assert cli.callbacks == Commands();
    var r1, r2 := SetAndShow(cli);
    var r3, r4, r5 := MisuseAndReset(cli);
    results := [r1, r2, r3, r4, r5];
    answer := cli.data.answer;
  }
}
