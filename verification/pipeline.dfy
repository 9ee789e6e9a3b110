/** `execute_raw`'s planning step: it splits a command line on ` | ` into
    stages, turns the last stage into a program and its arguments with
    `parse_command`, and feeds it the output of the stages before it. The
    process spawning itself is not modelled; a plan records which program
    would be spawned with which arguments and which upstream command line
    would feed it. */
module Pipeline {
  import opened Rust
  import opened Strings
  import opened Splitting
  import opened Tokenizer

  const Separator: string := " | "

  /** The stages of a command line: `cmd.split(" | ")`. There is always at
      least one, they never contain the separator, and joining them back with
      it gives the command line. The split is leftmost: the first stage ends
      at the first separator, and the others are the split of the rest. */
  function Stages(cmd: string): (stages: seq<string>)
    ensures |stages| >= 1
    ensures Join(stages, Separator) == cmd
    ensures forall k :: 0 <= k < |stages| ==> !Contains(stages[k], Separator)
    ensures |stages| >= 2 ==> FirstOccurrence(cmd, Separator, |stages[0]|)
    ensures |stages| >= 2 ==> stages[1..] == Split(cmd[|stages[0]| + |Separator|..], Separator)
  {
    JoinSplit(cmd, Separator);
    SplitPiecesAvoidDelimiter(cmd, Separator);
    SplitLeftmost(cmd, Separator);
    Split(cmd, Separator)
  }

  /** What a successful `execute_raw` call asks the operating system for. */
  datatype Launch =
    | Spawn(program: string, args: seq<string>)
    | SpawnFed(program: string, args: seq<string>, upstream: string)

  /** `Command::new(&args[0]).args(&args[1..])`: indexing an empty argument
      vector panics. */
  function SpawnArgv(argv: seq<string>): (r: Outcome<IoResult<Launch>>)
    ensures r.Ok? <==> argv != []
    ensures r.Ok? ==> r.value.Success? && r.value.result.Spawn?
    ensures r.Ok? ==> [r.value.result.program] + r.value.result.args == argv
  {
    if argv == [] then Panicked(IndexOutOfBounds(0, 0)) else Ok(Success(Spawn(argv[0], argv[1..])))
  }

  /** The upstream command line `execute_raw` builds for a pipeline, as
      written: the stages strictly between the first and the last, joined
      with a bare `|`. */
  function UpstreamAsWritten(stages: seq<string>): string
    requires |stages| >= 2
  {
    Join(stages[1..|stages| - 1], "|")
  }

  /** `execute_raw` as written. With two or more stages it indexes the
      stages with the command line's length in bytes minus one instead of
      the number of stages minus one. Its `io::Error` for a line without
      stages is never returned, since a split always has a piece. */
  function ExecuteRaw(cmd: string): (r: Outcome<IoResult<Launch>>)
    ensures !(r.Ok? && r.value.Failure?)
  {
    var stages := Stages(cmd);
    if |stages| == 0 then Ok(Failure(InvalidInput, "No command provided!"))
    else if |stages| == 1 then SpawnArgv(ParseCommand(stages[0]))
    else
      var index := ByteLength(cmd) - 1;
      if index >= |stages| then Panicked(IndexOutOfBounds(index, |stages|))
      else
        var argv := ParseCommand(stages[index]);
        if argv == [] then Panicked(IndexOutOfBounds(0, 0))
        else Ok(Success(SpawnFed(argv[0], argv[1..], UpstreamAsWritten(stages))))
  }

  /** Every command line with a ` | ` in it panics: its length in bytes is
      at least three per separator, so the index is past the last stage. */
  lemma MultiStagePanics(cmd: string)
    requires Contains(cmd, Separator)
    ensures ExecuteRaw(cmd) == Panicked(IndexOutOfBounds(ByteLength(cmd) - 1, |Stages(cmd)|))
    ensures ByteLength(cmd) - 1 >= |Stages(cmd)|
  {
    var stages := Stages(cmd);
    SplitIsSingleIff(cmd, Separator);
    JoinLength(stages, Separator);
  }

  /** A command line without ` | ` is spawned as one program whose words
      are those of `parse_command`; it panics exactly when it has no words. */
  lemma SingleStageSpawns(cmd: string)
    requires !Contains(cmd, Separator)
    ensures ExecuteRaw(cmd) == SpawnArgv(ParseCommand(cmd))
  {
    SplitIsSingleIff(cmd, Separator);
    var stages := Stages(cmd);
    assert stages == [cmd];
  }

  /** `execute_raw` succeeds exactly on command lines without ` | ` that
      have at least one word, and then spawns those words. */
  lemma ExecuteRawSucceedsIff(cmd: string)
    ensures ExecuteRaw(cmd).Ok? <==> !Contains(cmd, Separator) && ParseCommand(cmd) != []
    ensures ExecuteRaw(cmd).Ok? ==> ExecuteRaw(cmd).value == Success(Spawn(ParseCommand(cmd)[0], ParseCommand(cmd)[1..]))
  {
    if Contains(cmd, Separator) {
      MultiStagePanics(cmd);
    } else {
      SingleStageSpawns(cmd);
    }
  }

  /** A command line without a `|` character has one stage. */
  lemma NoBarIsOneStage(cmd: string)
    requires '|' !in cmd
    ensures !Contains(cmd, Separator)
  {
    forall i | 0 <= i <= |cmd|
      ensures !OccursAt(cmd, Separator, i)
    {
      if i + 3 <= |cmd| {
        assert cmd[i + 1] in cmd;
        assert cmd[i..i + 3][1] == cmd[i + 1];
        assert cmd[i..i + 3][1] != Separator[1];
      }
    }
  }

  /** The commands of the `execute` tests of lib.rs each spawn `echo` with
      the single argument `hello`. */
  lemma ExecuteEchoExamples()
    ensures ExecuteRaw("echo hello") == Ok(Success(Spawn("echo", ["hello"])))
    ensures ExecuteRaw("echo 'hello'") == Ok(Success(Spawn("echo", ["hello"])))
    ensures ExecuteRaw("echo \"hello\"") == Ok(Success(Spawn("echo", ["hello"])))
  {
    ParseEchoExamples();
    NoBarIsOneStage("echo hello");
    SingleStageSpawns("echo hello");
    NoBarIsOneStage("echo 'hello'");
    SingleStageSpawns("echo 'hello'");
    NoBarIsOneStage("echo \"hello\"");
    SingleStageSpawns("echo \"hello\"");
    var argv: seq<string> := ["echo", "hello"];
    assert argv[1..] == ["hello"];
  }

  /** The empty command line does not report "No command provided!": it
      panics indexing the empty argument vector. */
  lemma EmptyCommandPanics()
    ensures ExecuteRaw("") == Panicked(IndexOutOfBounds(0, 0))
  {
    assert !Contains("", Separator);
    SingleStageSpawns("");
    ParseCommandExamples();
  }

  lemma SplitLastTwo()
    ensures Split(" | c", Separator) == [[], "c"]
  {
    assert Split("c", Separator) == ["c"];
    SplitAfterDelimiter("c", Separator);
    assert Separator + "c" == " | c";
  }

  lemma SplitTwoStages()
    ensures Split("b | c", Separator) == ["b", "c"]
  {
    SplitLastTwo();
    assert (['b'] + " | c")[..3] != Separator by {
      assert (['b'] + " | c")[0] == 'b';
    }
    SplitCons('b', " | c", [[], "c"], Separator);
    assert ['b'] + " | c" == "b | c";
    assert ['b'] + [] == "b";
  }

  lemma SplitLastThree()
    ensures Split(" | b | c", Separator) == [[], "b", "c"]
  {
    SplitTwoStages();
    SplitAfterDelimiter("b | c", Separator);
    assert Separator + "b | c" == " | b | c";
  }

  lemma StagesExample()
    ensures Stages("a | b | c") == ["a", "b", "c"]
  {
    SplitLastThree();
    assert (['a'] + " | b | c")[..3] != Separator by {
      assert (['a'] + " | b | c")[0] == 'a';
    }
    SplitCons('a', " | b | c", [[], "b", "c"], Separator);
    assert ['a'] + " | b | c" == "a | b | c";
    assert ['a'] + [] == "a";
  }

  /** The upstream `execute_raw` would run for `a | b | c` is `b`: the first
      stage is lost. */
  lemma UpstreamDropsFirstStage()
    ensures UpstreamAsWritten(Stages("a | b | c")) == "b"
    ensures Join(Stages("a | b | c")[..2], Separator) == "a | b"
  {
    StagesExample();
    var stages: seq<string> := ["a", "b", "c"];
    assert stages[1..2] == ["b"];
    assert stages[..2] == ["a", "b"];
    assert "a" + Separator + "b" == "a | b";
  }

  // The pipeline as evidently intended: the last stage reads the output of
  // the pipeline formed by all the stages before it.

  datatype Chain =
    | Source(argv: seq<string>)
    | Pipe(upstream: Chain, argv: seq<string>)

  /** The argument vectors of a chain, from the first stage to the last. */
  function Argvs(c: Chain): seq<seq<string>>
  {
    match c
    case Source(argv) => [argv]
    case Pipe(upstream, argv) => Argvs(upstream) + [argv]
  }

  /** The words of each stage. */
  function StageArgvs(stages: seq<string>): (r: seq<seq<string>>)
    ensures |r| == |stages|
  {
    seq(|stages|, k requires 0 <= k < |stages| => ParseCommand(stages[k]))
  }

  /** The chain for a command line: the last stage, fed by the chain of the
      command line made of the stages before it. */
  function BuildChain(cmd: string): Chain
    decreases |cmd|
  {
    var stages := Stages(cmd);
    if |stages| == 1 then Source(ParseCommand(stages[0]))
    else
      JoinSnoc(stages, Separator);
      Pipe(BuildChain(Join(stages[..|stages| - 1], Separator)), ParseCommand(stages[|stages| - 1]))
  }

  lemma StageArgvsSnoc(stages: seq<string>)
    requires |stages| >= 1
    ensures StageArgvs(stages) == StageArgvs(stages[..|stages| - 1]) + [ParseCommand(stages[|stages| - 1])]
  {
  }

  /** The chain runs every stage, in order, each with its own words. */
  lemma {:induction false} BuildChainFollowsStages(cmd: string)
    ensures Argvs(BuildChain(cmd)) == StageArgvs(Stages(cmd))
    decreases |cmd|
  {
    var stages := Stages(cmd);
    if |stages| > 1 {
      var front := Join(stages[..|stages| - 1], Separator);
      JoinSnoc(stages, Separator);
      SplitOfJoinedPrefix(cmd, Separator);
      assert Stages(front) == stages[..|stages| - 1];
      BuildChainFollowsStages(front);
      StageArgvsSnoc(stages);
    }
  }

  /** The corrected plan: refuse a command line any stage of which has no
      words, instead of panicking on it. */
  datatype Plan = NoCommand | Run(chain: Chain)

  function PlanCommand(cmd: string): (p: Plan)
    ensures p.Run? ==> Argvs(p.chain) == StageArgvs(Stages(cmd))
    ensures p.Run? ==> forall k :: 0 <= k < |Argvs(p.chain)| ==> Argvs(p.chain)[k] != []
    ensures p.NoCommand? <==> exists k :: 0 <= k < |Stages(cmd)| && ParseCommand(Stages(cmd)[k]) == []
  {
    var stages := Stages(cmd);
    BuildChainFollowsStages(cmd);
    if exists k :: 0 <= k < |stages| && ParseCommand(stages[k]) == [] then NoCommand
    else Run(BuildChain(cmd))
  }

  /** Where `execute_raw` succeeds, the corrected plan runs the same single
      program with the same arguments. */
  lemma PlanAgreesOnSingleStage(cmd: string)
    requires ExecuteRaw(cmd).Ok?
    ensures PlanCommand(cmd) == Run(Source(ParseCommand(cmd)))
  {
    ExecuteRawSucceedsIff(cmd);
    SplitIsSingleIff(cmd, Separator);
    assert Stages(cmd) == [cmd];
  }

  lemma StageArgvsOfThree(x: string, y: string, z: string)
    ensures StageArgvs([x, y, z]) == [ParseCommand(x), ParseCommand(y), ParseCommand(z)]
  {
  }

  lemma ThreeStageWords()
    ensures StageArgvs(Stages("a | b | c")) == [["a"], ["b"], ["c"]]
  {
    StagesExample();
    StageArgvsOfThree("a", "b", "c");
    ParseSingleWord("a");
    ParseSingleWord("b");
    ParseSingleWord("c");
  }

  /** `a | b | c` runs `c` fed by `b` fed by `a`. */
  lemma PlanExample()
    ensures PlanCommand("a | b | c").Run?
    ensures Argvs(PlanCommand("a | b | c").chain) == [["a"], ["b"], ["c"]]
  {
    ThreeStageWords();
    var stages := Stages("a | b | c");
    assert forall k :: 0 <= k < |stages| ==> ParseCommand(stages[k]) != [] by {
      forall k | 0 <= k < |stages|
        ensures ParseCommand(stages[k]) != []
      {
        assert ParseCommand(stages[k]) == StageArgvs(stages)[k];
      }
    }
  }

  /** In the corrected chain the last stage is fed by exactly the chain a
      standalone pipeline of the stages before it would run. */
  lemma ChainFeedsFromPrefix(cmd: string)
    requires Contains(cmd, Separator)
    ensures var stages := Stages(cmd);
      var front := Join(stages[..|stages| - 1], Separator);
      Stages(front) == stages[..|stages| - 1] &&
      BuildChain(cmd) == Pipe(BuildChain(front), ParseCommand(stages[|stages| - 1]))
  {
    SplitIsSingleIff(cmd, Separator);
    SplitOfJoinedPrefix(cmd, Separator);
  }

  /** The last stage of `a | b | c` is fed by the chain of `a | b`. */
  lemma ThreeStagesFeedFromTwo()
    ensures BuildChain("a | b | c") == Pipe(BuildChain("a | b"), ["c"])
  {
    StagesExample();
    ParseSingleWord("c");
    UpstreamDropsFirstStage();
    assert Contains("a | b | c", Separator) by {
      assert OccursAt("a | b | c", Separator, 1);
    }
    ChainFeedsFromPrefix("a | b | c");
  }
}
