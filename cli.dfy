/**
 * The analyser's command line (cli.h, cli.cpp). The arguments after the program path are read
 * left to right: "-h" asks for help, "-o <file>" names the trace output file, "-s <int>" bounds
 * the number of collected samples and any other word is the input file. The model splits the
 * reading into words -> options (`Lex`) and options -> settings (`ApplyAll`); the method
 * `ParseCommandLine` walks the words with an index as the source does.
 *
 * `std::stoi` is a parameter: it gives the integer a text spells, or None where it spells none.
 */
module CommandLine {
  import opened Wrappers

  const Int32Limit: int := 0x8000_0000
  const U32Limit: int := 0x1_0000_0000

  /** `ParsedCommandLine`; a null `const char*` is None. */
  datatype ParsedCommandLine = ParsedCommandLine(
    programFilePath: Option<string>,
    printHelp: bool,
    perfLogOutputFilePath: Option<string>,
    perfLogMaxSamples: nat,
    inputFilePath: Option<string>)

  /** The member initialisers of `ParsedCommandLine`. */
  const Defaults := ParsedCommandLine(None, false, None, 0, None)

  /** The exceptions `ParseCommandLine` lets out. */
  datatype CliError =
    | OutputPathExpected                 // "-o" is the last word
    | MaxSamplesExpected                 // "-s" is the last word
    | InvalidMaxSamples(text: string)    // std::stoi throws invalid_argument
    | MaxSamplesOutOfRange(text: string) // std::stoi throws out_of_range

  /** One option of the command line; `Samples` keeps its text and the count it sets. */
  datatype Token = Help | Output(path: string) | Samples(text: string, count: nat) | Input(path: string)

  predicate IsFlag(w: string)
  {
    w == "-h" || w == "-o" || w == "-s"
  }

  /** The words an option is written as. */
  function Words(t: Token): (r: seq<string>)
    ensures 1 <= |r| <= 2
  {
    match t
    case Help => ["-h"]
    case Output(p) => ["-o", p]
    case Samples(s, _) => ["-s", s]
    case Input(p) => [p]
  }

  /** The words a sequence of options is written as. */
  function Unlex(ts: seq<Token>): (r: seq<string>)
    ensures |r| >= |ts|
  {
    if ts == [] then [] else Words(ts[0]) + Unlex(ts[1..])
  }

  /** `std::stoi` followed by the conversion of its `int` to `uint32_t`. */
  function MaxSamples(text: string, stoi: string -> Option<int>): (r: Result<nat, CliError>)
    ensures r.Ok? <==> stoi(text).Some? && -Int32Limit <= stoi(text).value < Int32Limit
    ensures r.Ok? ==> r.value < U32Limit && (r.value - stoi(text).value) % U32Limit == 0
  {
    match stoi(text)
    case None => Err(InvalidMaxSamples(text))
    case Some(v) => if -Int32Limit <= v < Int32Limit then Ok(v % U32Limit) else Err(MaxSamplesOutOfRange(text))
  }

  function Prepend(t: Token, r: Result<seq<Token>, CliError>): Result<seq<Token>, CliError>
  {
    match r
    case Ok(ts) => Ok([t] + ts)
    case Err(e) => Err(e)
  }

  /** The options the words spell, or the first error met reading them left to right. */
  function Lex(words: seq<string>, stoi: string -> Option<int>): Result<seq<Token>, CliError>
    decreases |words|
  {
    if words == [] then Ok([])
    else if words[0] == "-h" then Prepend(Help, Lex(words[1..], stoi))
    else if words[0] == "-o" then
      if |words| == 1 then Err(OutputPathExpected) else Prepend(Output(words[1]), Lex(words[2..], stoi))
    else if words[0] == "-s" then
      if |words| == 1 then Err(MaxSamplesExpected)
      else match MaxSamples(words[1], stoi)
        case Err(e) => Err(e)
        case Ok(n) => Prepend(Samples(words[1], n), Lex(words[2..], stoi))
    else Prepend(Input(words[0]), Lex(words[1..], stoi))
  }

  /** The options `Lex` can produce: a plain word is no flag and a count is the one its text gives. */
  predicate WellFormed(ts: seq<Token>, stoi: string -> Option<int>)
  {
    forall i :: 0 <= i < |ts| ==>
      (ts[i].Input? ==> !IsFlag(ts[i].path)) &&
      (ts[i].Samples? ==> MaxSamples(ts[i].text, stoi) == Ok(ts[i].count))
  }

  /** What one option sets. */
  function Apply(cl: ParsedCommandLine, t: Token): ParsedCommandLine
  {
    match t
    case Help => cl.(printHelp := true)
    case Output(p) => cl.(perfLogOutputFilePath := Some(p))
    case Samples(_, n) => cl.(perfLogMaxSamples := n)
    case Input(p) => cl.(inputFilePath := Some(p))
  }

  function ApplyAll(cl: ParsedCommandLine, ts: seq<Token>): ParsedCommandLine
    decreases |ts|
  {
    if ts == [] then cl else ApplyAll(Apply(cl, ts[0]), ts[1..])
  }

  function Continue(cl: ParsedCommandLine, r: Result<seq<Token>, CliError>): Result<ParsedCommandLine, CliError>
  {
    match r
    case Ok(ts) => Ok(ApplyAll(cl, ts))
    case Err(e) => Err(e)
  }

  /** The words from index `idx` on. */
  function From(args: seq<string>, idx: nat): seq<string>
  {
    if idx < |args| then args[idx..] else []
  }

  /** The settings before the first option is read. */
  function Start(args: seq<string>): ParsedCommandLine
  {
    Defaults.(programFilePath := if |args| == 0 then None else Some(args[0]), printHelp := |args| == 1)
  }

  /** What `ParseCommandLine(argc, args)` returns or throws. */
  function Parse(args: seq<string>, stoi: string -> Option<int>): Result<ParsedCommandLine, CliError>
  {
    Continue(Start(args), Lex(From(args, 1), stoi))
  }

  /** `ParseCommandLine`: `args[0]` is the program path and the words after it are read in turn. */
  method ParseCommandLine(args: seq<string>, stoi: string -> Option<int>) returns (r: Result<ParsedCommandLine, CliError>)
    ensures r == Parse(args, stoi)
  {
    var cl := Defaults;
    cl := cl.(programFilePath := if |args| == 0 then None else Some(args[0]));
    if |args| == 1 {
      cl := cl.(printHelp := true);
    }
    assert cl == Start(args);
    ghost var outcome := Parse(args, stoi);
    var idx := 1;
    while idx < |args|
      invariant 1 <= idx
      invariant outcome == Continue(cl, Lex(From(args, idx), stoi))
      decreases |args| - idx
    {
      var error;
      idx, cl, error := ReadOption(args, idx, cl, stoi);
      if error.Some? {
        return Err(error.value);
      }
      assert outcome == Continue(cl, Lex(From(args, idx + 1), stoi));
      idx := idx + 1;
    }
    ReadAll(args, idx, cl, stoi);
    r := Ok(cl);
  }

  /**
   * The body of `ParseCommandLine`'s loop: the option at `idx` is applied to `cl`, and `idx`
   * is left on the last word it took; or the exception it raises.
   */
  method ReadOption(args: seq<string>, idx: nat, cl: ParsedCommandLine, stoi: string -> Option<int>)
    returns (last: nat, next: ParsedCommandLine, error: Option<CliError>)
    requires idx < |args|
    ensures error.Some? ==> Continue(cl, Lex(From(args, idx), stoi)) == Err(error.value)
    ensures error.None? ==> (idx <= last < |args| &&
      Continue(cl, Lex(From(args, idx), stoi)) == Continue(next, Lex(From(args, last + 1), stoi)))
  {
    last, next, error := idx, cl, None;
    if args[idx] == "-h" {
      ReadHelp(args, idx, cl, stoi);
      next := cl.(printHelp := true);
    } else if args[idx] == "-o" {
      last := last + 1;
      if last >= |args| {
        ReadLastFlag(args, idx, cl, stoi);
        return last, next, Some(OutputPathExpected);
      }
      ReadOutput(args, idx, cl, stoi);
      next := cl.(perfLogOutputFilePath := Some(args[last]));
    } else if args[idx] == "-s" {
      last := last + 1;
      if last >= |args| {
        ReadLastFlag(args, idx, cl, stoi);
        return last, next, Some(MaxSamplesExpected);
      }
      ReadSamples(args, idx, cl, stoi);
      var samples := MaxSamples(args[last], stoi);
      if samples.Err? {
        return last, next, Some(samples.error);
      }
      next := cl.(perfLogMaxSamples := samples.value);
    } else {
      ReadInput(args, idx, cl, stoi);
      next := cl.(inputFilePath := Some(args[idx]));
    }
  }

  /** Reading one more option and then the rest is reading all of them. */
  lemma ContinuePrepend(cl: ParsedCommandLine, t: Token, r: Result<seq<Token>, CliError>)
    ensures Continue(cl, Prepend(t, r)) == Continue(Apply(cl, t), r)
  {
    if r.Ok? {
      assert ([t] + r.value)[1..] == r.value;
    }
  }

  /** `Lex` on the words from `idx` on, one word or one flag and its value at a time. */
  lemma LexFrom(args: seq<string>, idx: nat, stoi: string -> Option<int>)
    requires idx < |args|
    ensures var w, rest1 := args[idx], Lex(From(args, idx + 1), stoi);
      (w == "-h" ==> Lex(From(args, idx), stoi) == Prepend(Help, rest1)) &&
      (!IsFlag(w) ==> Lex(From(args, idx), stoi) == Prepend(Input(w), rest1))
    ensures (args[idx] == "-o" || args[idx] == "-s") && idx + 1 == |args| ==>
      Lex(From(args, idx), stoi) == Err(if args[idx] == "-o" then OutputPathExpected else MaxSamplesExpected)
    ensures idx + 1 < |args| ==> var v, rest2 := args[idx + 1], Lex(From(args, idx + 2), stoi);
      (args[idx] == "-o" ==> Lex(From(args, idx), stoi) == Prepend(Output(v), rest2)) &&
      (args[idx] == "-s" ==> (Lex(From(args, idx), stoi) ==
        match MaxSamples(v, stoi)
        case Err(e) => Err(e)
        case Ok(n) => Prepend(Samples(v, n), rest2)))
  {
    var words := From(args, idx);
    assert words[0] == args[idx] && words[1..] == From(args, idx + 1);
    if idx + 1 < |args| {
      assert words[1] == args[idx + 1] && words[2..] == From(args, idx + 2);
    }
  }

  // One step of `ParseCommandLine`'s loop each: what is left to read after the word at `idx`.

  lemma ReadHelp(args: seq<string>, idx: nat, cl: ParsedCommandLine, stoi: string -> Option<int>)
    requires idx < |args| && args[idx] == "-h"
    ensures Continue(cl, Lex(From(args, idx), stoi)) == Continue(cl.(printHelp := true), Lex(From(args, idx + 1), stoi))
  {
    LexFrom(args, idx, stoi);
    ContinuePrepend(cl, Help, Lex(From(args, idx + 1), stoi));
  }

  lemma ReadInput(args: seq<string>, idx: nat, cl: ParsedCommandLine, stoi: string -> Option<int>)
    requires idx < |args| && !IsFlag(args[idx])
    ensures Continue(cl, Lex(From(args, idx), stoi)) == Continue(cl.(inputFilePath := Some(args[idx])), Lex(From(args, idx + 1), stoi))
  {
    LexFrom(args, idx, stoi);
    ContinuePrepend(cl, Input(args[idx]), Lex(From(args, idx + 1), stoi));
  }

  lemma ReadOutput(args: seq<string>, idx: nat, cl: ParsedCommandLine, stoi: string -> Option<int>)
    requires idx + 1 < |args| && args[idx] == "-o"
    ensures Continue(cl, Lex(From(args, idx), stoi)) ==
      Continue(cl.(perfLogOutputFilePath := Some(args[idx + 1])), Lex(From(args, idx + 2), stoi))
  {
    LexFrom(args, idx, stoi);
    ContinuePrepend(cl, Output(args[idx + 1]), Lex(From(args, idx + 2), stoi));
  }

  lemma ReadSamples(args: seq<string>, idx: nat, cl: ParsedCommandLine, stoi: string -> Option<int>)
    requires idx + 1 < |args| && args[idx] == "-s"
    ensures var n := MaxSamples(args[idx + 1], stoi);
      Continue(cl, Lex(From(args, idx), stoi)) ==
        if n.Err? then Err(n.error) else Continue(cl.(perfLogMaxSamples := n.value), Lex(From(args, idx + 2), stoi))
  {
    LexFrom(args, idx, stoi);
    var n := MaxSamples(args[idx + 1], stoi);
    if n.Ok? {
      ContinuePrepend(cl, Samples(args[idx + 1], n.value), Lex(From(args, idx + 2), stoi));
    }
  }

  lemma ReadAll(args: seq<string>, idx: nat, cl: ParsedCommandLine, stoi: string -> Option<int>)
    requires idx >= |args|
    ensures Continue(cl, Lex(From(args, idx), stoi)) == Ok(cl)
  {
  }

  lemma ReadLastFlag(args: seq<string>, idx: nat, cl: ParsedCommandLine, stoi: string -> Option<int>)
    requires idx + 1 == |args| && (args[idx] == "-o" || args[idx] == "-s")
    ensures Continue(cl, Lex(From(args, idx), stoi)) == Err(if args[idx] == "-o" then OutputPathExpected else MaxSamplesExpected)
  {
    LexFrom(args, idx, stoi);
  }

  /** Reading options back from words gives the words again. */
  lemma {:induction false} LexThenUnlex(words: seq<string>, stoi: string -> Option<int>)
    requires Lex(words, stoi).Ok?
    ensures Unlex(Lex(words, stoi).value) == words && WellFormed(Lex(words, stoi).value, stoi)
    decreases |words|
  {
    if words != [] {
      var ts := Lex(words, stoi).value;
      var n := if words[0] == "-o" || words[0] == "-s" then 2 else 1;
      LexThenUnlex(words[n..], stoi);
      assert ts[1..] == Lex(words[n..], stoi).value;
      assert words == Words(ts[0]) + words[n..];
      forall i | 1 <= i < |ts|
        ensures ts[i] == ts[1..][i - 1]
      {
      }
    }
  }

  /** An option that `Lex` can produce is read back from its words, whatever follows them. */
  lemma LexToken(t: Token, rest: seq<string>, stoi: string -> Option<int>)
    requires t.Input? ==> !IsFlag(t.path)
    requires t.Samples? ==> MaxSamples(t.text, stoi) == Ok(t.count)
    ensures Lex(Words(t) + rest, stoi) == Prepend(t, Lex(rest, stoi))
  {
    var words := Words(t) + rest;
    assert words[0] == Words(t)[0] && words[|Words(t)|..] == rest;
    if |Words(t)| == 2 {
      assert words[1] == Words(t)[1];
    }
  }

  /** The first option written out is read back before the others. */
  lemma WellFormedTail(ts: seq<Token>, stoi: string -> Option<int>)
    requires ts != [] && WellFormed(ts, stoi)
    ensures WellFormed(ts[1..], stoi)
    ensures Unlex(ts) == Words(ts[0]) + Unlex(ts[1..])
  {
    forall i | 0 <= i < |ts[1..]|
      ensures ts[1..][i] == ts[i + 1]
    {
    }
  }

  /** Writing well-formed options out and reading them back gives the same options. */
  lemma {:induction false} UnlexThenLex(ts: seq<Token>, stoi: string -> Option<int>)
    requires WellFormed(ts, stoi)
    ensures Lex(Unlex(ts), stoi) == Ok(ts)
  {
    if ts != [] {
      WellFormedTail(ts, stoi);
      UnlexThenLex(ts[1..], stoi);
      LexToken(ts[0], Unlex(ts[1..]), stoi);
      assert ts == [ts[0]] + ts[1..];
    }
  }

  /** A flag that needs a value and ends the command line is the error named after it. */
  lemma {:induction false} TrailingFlag(ts: seq<Token>, flag: string, stoi: string -> Option<int>)
    requires WellFormed(ts, stoi) && (flag == "-o" || flag == "-s")
    ensures Lex(Unlex(ts) + [flag], stoi) == Err(if flag == "-o" then OutputPathExpected else MaxSamplesExpected)
  {
    if ts != [] {
      WellFormedTail(ts, stoi);
      TrailingFlag(ts[1..], flag, stoi);
      LexToken(ts[0], Unlex(ts[1..]) + [flag], stoi);
      assert Unlex(ts) + [flag] == Words(ts[0]) + (Unlex(ts[1..]) + [flag]);
    }
  }

  /** Help is asked for when an option asks for it; the program path never changes. */
  lemma {:induction false} HelpOption(cl: ParsedCommandLine, ts: seq<Token>)
    ensures var r := ApplyAll(cl, ts);
      r.programFilePath == cl.programFilePath && (r.printHelp <==> cl.printHelp || Help in ts)
    decreases |ts|
  {
    if ts != [] {
      HelpOption(Apply(cl, ts[0]), ts[1..]);
      assert ts == [ts[0]] + ts[1..];
    }
  }

  /** The input path is the one of the last plain word, or stays as it was without one. */
  lemma {:induction false} LastInputWins(cl: ParsedCommandLine, ts: seq<Token>)
    ensures var r := ApplyAll(cl, ts);
      ((forall i :: 0 <= i < |ts| ==> !ts[i].Input?) ==> r.inputFilePath == cl.inputFilePath) &&
      (forall i :: 0 <= i < |ts| && ts[i].Input? && (forall j :: i < j < |ts| ==> !ts[j].Input?) ==>
        r.inputFilePath == Some(ts[i].path))
    decreases |ts|
  {
    if ts != [] {
      LastInputWins(Apply(cl, ts[0]), ts[1..]);
      forall i | 1 <= i < |ts|
        ensures ts[i] == ts[1..][i - 1]
      {
      }
    }
  }

  /** The output path is the one after the last "-o", or stays as it was without one. */
  lemma {:induction false} LastOutputWins(cl: ParsedCommandLine, ts: seq<Token>)
    ensures var r := ApplyAll(cl, ts);
      ((forall i :: 0 <= i < |ts| ==> !ts[i].Output?) ==> r.perfLogOutputFilePath == cl.perfLogOutputFilePath) &&
      (forall i :: 0 <= i < |ts| && ts[i].Output? && (forall j :: i < j < |ts| ==> !ts[j].Output?) ==>
        r.perfLogOutputFilePath == Some(ts[i].path))
    decreases |ts|
  {
    if ts != [] {
      LastOutputWins(Apply(cl, ts[0]), ts[1..]);
      forall i | 1 <= i < |ts|
        ensures ts[i] == ts[1..][i - 1]
      {
      }
    }
  }

  /** The sample bound is the one after the last "-s", or stays as it was without one. */
  lemma {:induction false} LastSamplesWins(cl: ParsedCommandLine, ts: seq<Token>)
    ensures var r := ApplyAll(cl, ts);
      ((forall i :: 0 <= i < |ts| ==> !ts[i].Samples?) ==> r.perfLogMaxSamples == cl.perfLogMaxSamples) &&
      (forall i :: 0 <= i < |ts| && ts[i].Samples? && (forall j :: i < j < |ts| ==> !ts[j].Samples?) ==>
        r.perfLogMaxSamples == ts[i].count)
    decreases |ts|
  {
    if ts != [] {
      LastSamplesWins(Apply(cl, ts[0]), ts[1..]);
      forall i | 1 <= i < |ts|
        ensures ts[i] == ts[1..][i - 1]
      {
      }
    }
  }

  /** With no argument after the program path, help is printed and nothing else is set. */
  lemma HelpWithoutArguments(program: string, stoi: string -> Option<int>)
    ensures Parse([program], stoi) == Ok(Defaults.(programFilePath := Some(program), printHelp := true))
  {
  }

  /**
   * A command line is accepted exactly when its words after the program path are well-formed
   * options written out, and then its settings are those options applied to the defaults.
   */
  lemma ParseMeaning(args: seq<string>, stoi: string -> Option<int>, ts: seq<Token>)
    requires |args| >= 1 && WellFormed(ts, stoi) && args[1..] == Unlex(ts)
    ensures Parse(args, stoi) == Ok(ApplyAll(Start(args), ts))
  {
    UnlexThenLex(ts, stoi);
    assert From(args, 1) == Unlex(ts);
  }
}
