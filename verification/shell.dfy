/** The decision `main` makes for one input line, after its trailing newline
    has been cut off: split the line into pipeline stages at `|`, parse each
    stage, and then, in the order the source checks them, ignore the line,
    report an error, run a built-in or hand a pipeline over for execution. */
module Shell {
  import opened Wrappers
  import opened CString
  import opened CBuffer
  import opened Parse
  import opened ParseFacts
  import opened Checks

  /** The delimiters of the `strtok_r` loop that cuts out the stages. */
  const PipeDelims: string := "|\n"

  /** `getPipeCount`: `strtok(cmd, "|")` and then `strtok(NULL, "|")` until it
      returns NULL, over a writable copy of the line, counting the sections. */
  method PipeCount(cmd: string) returns (count: nat)
    requires NoNul(cmd)
    ensures count == |Tokens(cmd, "|")|
  {
    var buf := cmd + [NUL];
    assert Holds(buf, cmd, 0);
    var pos: nat := 0;
    var t := BufStrtok(buf, pos, "|");
    count := 0;
    while t.start.Some?
      invariant pos <= |cmd| && Terminated(buf) && Holds(buf, cmd, pos)
      invariant t == BufStrtok(buf, pos, "|")
      invariant count + |TokenSpansFrom(cmd, pos, "|")| == |TokenSpans(cmd, "|")|
      decreases |cmd| - pos
    {
      StrtokNext(buf, cmd, pos, "|");
      count := count + 1;
      buf, pos := t.buf, t.save;
      t := BufStrtok(buf, pos, "|");
    }
    StrtokNext(buf, cmd, pos, "|");
  }

  /** The stages of a line: the sections `strtok_r` with `"|\n"` cuts out. */
  function Stages(line: string): seq<string>
  {
    Tokens(line, PipeDelims)
  }

  /** One call of the `strtok_r` loop, the `i`th, returns the `i`th stage. */
  lemma SectionStep(buf: string, line: string, pos: nat, i: nat)
    requires Terminated(buf) && Holds(buf, line, pos) && pos <= |line|
    requires i < |TokenSpans(line, PipeDelims)|
    requires TokenSpansFrom(line, pos, PipeDelims) == TokenSpans(line, PipeDelims)[i..]
    ensures var t := BufStrtok(buf, pos, PipeDelims);
      t.start.Some? && t.start.value < |t.buf| && StrAt(t.buf, t.start.value) == Stages(line)[i] &&
      t.save <= |line| && Terminated(t.buf) && Holds(t.buf, line, t.save) &&
      TokenSpansFrom(line, t.save, PipeDelims) == TokenSpans(line, PipeDelims)[i + 1..] &&
      Stages(line)[..i + 1] == Stages(line)[..i] + [StrAt(t.buf, t.start.value)]
  {
    StrtokNext(buf, line, pos, PipeDelims);
    var t := BufStrtok(buf, pos, PipeDelims);
    var sp := TokenSpans(line, PipeDelims);
    SuffixStep(sp, i, TokenSpansFrom(line, t.save, PipeDelims));
    assert Stages(line)[..i + 1] == Stages(line)[..i] + [Stages(line)[i]];
  }

  /** A suffix from `i` that is its first element followed by `tail` has
      `tail` as its suffix from `i + 1`. */
  lemma SuffixStep<T>(xs: seq<T>, i: nat, tail: seq<T>)
    requires i < |xs| && xs[i..] == [xs[i..][0]] + tail
    ensures xs[i..][0] == xs[i] && tail == xs[i + 1..]
  {
    assert xs[i..] == [xs[i]] + xs[i + 1..];
  }

  /** The `strtok_r` loop of `main`: exactly `n` calls over a writable copy of
      the line, each section read as the string its call returned. */
  method SplitStages(line: string, n: nat) returns (stages: seq<string>)
    requires NoNul(line) && n == |Stages(line)|
    ensures stages == Stages(line)
  {
    var buf := line + [NUL];
    assert Holds(buf, line, 0);
    var pos: nat := 0;
    stages := [];
    var i := 0;
    while i < n
      invariant i <= n && pos <= |line| && Terminated(buf) && Holds(buf, line, pos)
      invariant TokenSpansFrom(line, pos, PipeDelims) == TokenSpans(line, PipeDelims)[i..]
      invariant stages == Stages(line)[..i]
    {
      SectionStep(buf, line, pos, i);
      var t := BufStrtok(buf, pos, PipeDelims);
      stages := stages + [StrAt(t.buf, t.start.value)];
      buf, pos := t.buf, t.save;
      i := i + 1;
    }
  }

  /** Without a newline in the line, the stages are exactly its maximal
      non-empty runs free of `|` (so `a||b` has two stages), those runs are
      what `getPipeCount` counts, and the `|`-separated sections, empty ones
      included, join back into the line. */
  lemma StageCount(line: string)
    requires '\n' !in line
    ensures Stages(line) == NonEmpty(Fields(line, "|"))
    ensures |Stages(line)| == |Tokens(line, "|")|
    ensures Join(Fields(line, "|"), '|') == line
    ensures forall k :: 0 <= k < |Fields(line, "|")| ==> '|' !in Fields(line, "|")[k]
  {
    assert PipeDelims == "|" + "\n";
    forall i | 0 <= i < |line| ensures line[i] !in "\n" {
      assert line[i] in line;
    }
    TokensIgnoreAbsentDelims(line, "|", "\n");
    TokensAreNonEmptyFields(line, "|");
    FieldsJoin(line, '|');
    forall k | 0 <= k < |Fields(line, "|")| ensures '|' !in Fields(line, "|")[k] {
      assert DelimFree(Fields(line, "|")[k], "|");
    }
  }

  /** A non-empty line that does not start with `|` has a first stage. */
  lemma StagesExist(line: string)
    requires line != [] && line[0] !in PipeDelims
    ensures |Stages(line)| > 0
  {
    TokensEmpty(line, PipeDelims);
  }

  /** An empty section between two `|` is skipped, not reported. */
  lemma DoublePipe(line: string)
    requires line == "a||b"
    ensures Stages(line) == ["a", "b"]
  {
    var s := "a||b";
    assert Scan(s, 0, PipeDelims) == 1;
    TokenSpansAtWord(s, 0, PipeDelims);
    TokenSpansAtDelim(s, 2, PipeDelims);
    assert Scan(s, 3, PipeDelims) == 4;
    TokenSpansAtWord(s, 3, PipeDelims);
    assert TokenSpans(s, PipeDelims) == [(0, 1), (3, 4)];
    assert Segment(s, (0, 1)) == "a" && Segment(s, (3, 4)) == "b";
  }

  /** Why a line is rejected; each has its own message. */
  datatype Failure =
    | MissingCommand
    | TooManyArgs
    | NoOutputFile
    | CannotOpenOutputFile
    | MislocatedRedirect

  /** What `main` does with a line: nothing, one error message, one of the
      built-ins (`cd` with the string its first argument entry holds, None
      for NULL), or the execution of the parsed pipeline. */
  datatype Outcome =
    | Ignored
    | Failed(failure: Failure)
    | Exit
    | Pwd
    | Cd(dir: Option<string>)
    | Sls
    | Execute(cmds: seq<Command>)

  /** Every stage can be parsed: its argument array does not overflow. */
  predicate Parsable(stages: seq<string>)
  {
    forall k :: 0 <= k < |stages| ==> NoNul(stages[k]) && ArgsFit(stages[k])
  }

  /** `parseCommandLine` on every stage. */
  function ParseAll(stages: seq<string>, canOpen: string -> bool): (cmds: seq<Command>)
    requires Parsable(stages)
    ensures |cmds| == |stages|
  {
    seq(|stages|, k requires 0 <= k < |stages| => ParseStage(stages[k], canOpen))
  }

  /** The sum of `numArgs` over the stages. */
  function TotalArgs(cmds: seq<Command>): nat
  {
    if cmds == [] then 0 else NumArgs(cmds[0]) + TotalArgs(cmds[1..])
  }

  /** The line is `|` or starts or ends with `|`. */
  predicate PipeAtEdge(line: string)
    requires line != []
  {
    line == "|" || line[|line| - 1] == '|' || line[0] == '|'
  }

  /** The lines the decision is defined on: no NUL, no newline (it has been
      cut off), and, when the line gets past the empty-line and edge checks
      and is split, no stage overflows the argument array. */
  predicate Admissible(line: string)
  {
    NoNul(line) && '\n' !in line && (line != [] && !PipeAtEdge(line) ==> Parsable(Stages(line)))
  }

  /** `missingCmd`: the first command name first occurs after a `>` or a `|`,
      or some stage has the empty command name. */
  predicate Missing(line: string, cmds: seq<Command>)
    requires |cmds| > 0
  {
    CheckCommandValidity(line, cmds[0].program) || exists k :: 0 <= k < |cmds| && cmds[k].program == ""
  }

  /** The checks before a pipeline is run, first match winning: too many
      arguments in all, a redirection without a file name on the last stage,
      an output file the probe could not open, a `>` followed later by `|`. */
  function Gate(line: string, cmds: seq<Command>): (r: Outcome)
    requires |cmds| > 0
    ensures r.Failed? || r == Execute(cmds)
    ensures r.Failed? ==> r.failure != MissingCommand
    ensures r == Execute(cmds) ==> TotalArgs(cmds) < ARGS_MAX && !CheckRedirectMislocation(line)
  {
    var last := cmds[|cmds| - 1];
    if TotalArgs(cmds) > ARGS_MAX - 1 then Failed(TooManyArgs)
    else if last.outputFile.None? && last.redirect then Failed(NoOutputFile)
    else if last.redirect && !last.openable then Failed(CannotOpenOutputFile)
    else if CheckRedirectMislocation(line) then Failed(MislocatedRedirect)
    else Execute(cmds)
  }

  /** What happens once the stages are parsed and `missing` has been worked
      out: a single stage with the empty command name is ignored, then a
      missing command is reported, then the built-ins (`exit` and `pwd` on the
      whole line, `cd` and `sls` on the first command name), then the gate. */
  function Dispatch(line: string, cmds: seq<Command>, missing: bool): (r: Outcome)
    requires |cmds| > 0
    ensures r == Ignored ==> |cmds| == 1
    ensures r.Execute? ==> !missing && r == Gate(line, cmds)
  {
    if |cmds| == 1 && cmds[0].program == "" then Ignored
    else if missing then Failed(MissingCommand)
    else if line == "exit" then Exit
    else if line == "pwd" then Pwd
    else if cmds[0].program == "cd" then Cd(if NumArgs(cmds[0]) > 1 then cmds[0].args[1] else None)
    else if cmds[0].program == "sls" then Sls
    else Gate(line, cmds)
  }

  /** The decision for one line without its newline; `canOpen` says which
      file names the open probe succeeds on. */
  function Decide(line: string, canOpen: string -> bool): (r: Outcome)
    requires Admissible(line)
    ensures r == Ignored ==> line == [] || |Stages(line)| == 1
    ensures r.Execute? ==> line != [] && !PipeAtEdge(line) && |r.cmds| == |Stages(line)|
  {
    if line == [] then Ignored
    else if PipeAtEdge(line) then Failed(MissingCommand)
    else
      StagesExist(line);
      var cmds := ParseAll(Stages(line), canOpen);
      Dispatch(line, cmds, Missing(line, cmds))
  }
}
