/** A stage after the first that starts with `>>` is run with its output file
    name as the command: in `a |>> f` the second stage has no command text,
    but the parse takes `f`, the word after the marker, as its command name,
    and since only the first stage's name is checked against the position of
    `>` and `|`, the pipeline `a | f >> f` is executed instead of `missing
    command` being reported. The corrected decision also reports a missing
    command when some stage has no words before its `>`. */
module Finding {
  import opened Wrappers
  import opened CString
  import opened CBuffer
  import opened Parse
  import opened ParseFacts
  import opened Checks
  import opened Shell
  import opened ShellFacts

  /* ---------------------------------------------------------------------- */
  /* The parse of `>> f` as written.                                        */

  lemma AppendStageTokens(s: string)
    requires s == ">> f"
    ensures TokenAt(s, 0, ">") == Some((2, 4))
    ensures TokenAt(s, 2, Blanks) == Some((3, 4))
  {
    var t := ">> f";
    assert Skip(t, 0, ">") == 2 && Scan(t, 2, ">") == 4;
    assert Skip(t, 2, Blanks) == 3 && Scan(t, 3, Blanks) == 4;
  }

  /** The redirection part over `>> f`: the text before the marker is taken to
      be `f` (from position 2), and so is the file name (from position 3). */
  lemma AppendStageScan(s: string)
    requires s == ">> f"
    ensures NoNul(s)
    ensures RedirectScan(s) == Redirection(s + [NUL], true, true, Some(2), Some(3), 4)
  {
    var buf := s + [NUL];
    assert Holds(buf, s, 0) && Holds(buf, s, 2);
    FindChar(s, '>');
    assert Find(s, ">") == Some(0);
    assert OccursAt(s, ">>", 0);
    assert FileFrom(s, 0) == 2;
    AppendStageTokens(s);
    BufStrtokHolds(buf, s, 0, ">");
    BufStrtokHolds(buf, s, 2, Blanks);
  }

  /** The argument scan from position 2 of that buffer finds the one word `f`. */
  lemma AppendStageArgs(s: string)
    requires s == ">> f"
    ensures Terminated(s + [NUL]) && StrAt(s + [NUL], 3) == "f"
    ensures ArgScan(s + [NUL], 2) == Args(s + [NUL], [At(3)])
    ensures StripBackground(s + [NUL], [At(3)]) == Stripped(s + [NUL], [At(3)], false)
  {
    var buf := s + [NUL];
    assert Holds(buf, s, 2);
    AppendStageTokens(s);
    BufStrtokHolds(buf, s, 2, Blanks);
    BufTokensAtNul(buf, 4, Blanks);
    StrAtSlice(buf, s, 3, 4);
    StripAt(buf, [At(3)], 3, "f");
  }

  /** As written, the stage `>> f` parses to the command `f` appending to the
      file `f`, while its command text, the part before `>>`, is empty. */
  lemma AppendStageAsWritten(s: string, canOpen: string -> bool)
    requires s == ">> f"
    ensures NoNul(s) && ArgsFit(s)
    ensures ParseStage(s, canOpen) == Command("f", [Some("f")], true, true, Some("f"), canOpen("f"), false)
    ensures HeadWords(s) == [] && CleanStage(s, canOpen).program == ""
  {
    AppendStageScan(s);
    AppendStageArgs(s);
    FindChar(s, '>');
    assert Head(s) == [];
    assert Texts(s + [NUL], [At(3)]) == [Some("f")];
  }

  /* ---------------------------------------------------------------------- */
  /* The line `a |>> f` as written.                                         */

  lemma FindingStages(line: string)
    requires line == "a |>> f"
    ensures Stages(line) == ["a ", ">> f"]
  {
    var t := "a |>> f";
    assert Scan(t, 0, PipeDelims) == 2;
    TokenSpansAtWord(t, 0, PipeDelims);
    assert Scan(t, 3, PipeDelims) == 7;
    TokenSpansAtWord(t, 3, PipeDelims);
    assert TokenSpans(t, PipeDelims) == [(0, 2), (3, 7)];
    assert Segment(t, (0, 2)) == "a " && Segment(t, (3, 7)) == ">> f";
  }

  lemma FirstStageWords(s: string)
    requires s == "a "
    ensures Tokens(s, Blanks) == ["a"]
  {
    var t := "a ";
    assert Scan(t, 0, Blanks) == 1;
    TokenSpansAtWord(t, 0, Blanks);
    TokenSpansAtDelim(t, 1, Blanks);
    assert TokenSpans(t, Blanks) == [(0, 1)];
    assert Segment(t, (0, 1)) == "a";
  }

  lemma FirstStage(s: string, canOpen: string -> bool)
    requires s == "a "
    ensures NoNul(s) && ArgsFit(s)
    ensures ParseStage(s, canOpen) == Command("a", [Some("a")], false, false, None, true, false)
  {
    FirstStageWords(s);
    PlainParse(s, canOpen);
    assert Somes(["a"]) == [Some("a")];
  }

  /** The line `a |>> f` has two stages and neither check of the whole line
      fires on it. */
  lemma FindingLine(line: string)
    requires line == "a |>> f"
    ensures NoNul(line) && '\n' !in line && line != [] && !PipeAtEdge(line)
    ensures line != "exit" && line != "pwd"
    ensures |Stages(line)| == 2 && Stages(line)[0] == "a " && Stages(line)[1] == ">> f"
    ensures !CheckCommandValidity(line, "a") && !CheckRedirectMislocation(line)
  {
    FindingStages(line);
    assert OccursAt(line, "a", 0);
    CommandValidityIff(line, "a");
    MislocationIff(line);
  }

  lemma ParsableTwo(stages: seq<string>)
    requires |stages| == 2
    requires NoNul(stages[0]) && ArgsFit(stages[0]) && NoNul(stages[1]) && ArgsFit(stages[1])
    ensures Parsable(stages)
  {
    forall k | 0 <= k < |stages| ensures NoNul(stages[k]) && ArgsFit(stages[k]) {
      if k == 0 {
        assert stages[k] == stages[0];
      } else {
        assert stages[k] == stages[1];
      }
    }
  }

  /** A two-stage pipeline that passes every check is executed. */
  lemma TwoRun(line: string, cmds: seq<Command>)
    requires |cmds| == 2
    requires cmds[0].program != "" && cmds[1].program != "" && !CheckCommandValidity(line, cmds[0].program)
    requires line != "exit" && line != "pwd" && cmds[0].program != "cd" && cmds[0].program != "sls"
    requires NumArgs(cmds[0]) + NumArgs(cmds[1]) < ARGS_MAX
    requires cmds[1].redirect ==> cmds[1].outputFile.Some? && cmds[1].openable
    requires !CheckRedirectMislocation(line)
    ensures Dispatch(line, cmds, Missing(line, cmds)) == Execute(cmds)
  {
    assert cmds[1..][1..] == [];
    assert TotalArgs(cmds[1..]) == NumArgs(cmds[1]) + TotalArgs([]);
    assert !Missing(line, cmds);
  }

  /** The commands `a |>> f` parses to. */
  lemma FindingParse(line: string, canOpen: string -> bool)
    requires line == "a |>> f"
    ensures NoNul(line) && '\n' !in line && line != [] && !PipeAtEdge(line) && Parsable(Stages(line))
    ensures var cmds := ParseAll(Stages(line), canOpen);
      |cmds| == 2 &&
      cmds[0] == Command("a", [Some("a")], false, false, None, true, false) &&
      cmds[1] == Command("f", [Some("f")], true, true, Some("f"), canOpen("f"), false) &&
      HeadWords(Stages(line)[1]) == []
  {
    FindingLine(line);
    var stages := Stages(line);
    FirstStage(stages[0], canOpen);
    AppendStageAsWritten(stages[1], canOpen);
    ParsableTwo(stages);
  }

  lemma Pair<T>(xs: seq<T>)
    requires |xs| == 2
    ensures xs == [xs[0], xs[1]]
  {
  }

  /** The commands of `a |>> f` pass every check when `f` can be opened. */
  lemma FindingRuns(line: string, canOpen: string -> bool)
    requires line == "a |>> f" && canOpen("f")
    ensures NoNul(line) && '\n' !in line && line != [] && !PipeAtEdge(line) && Parsable(Stages(line))
    ensures var cmds := ParseAll(Stages(line), canOpen);
      Dispatch(line, cmds, Missing(line, cmds)) == Execute(cmds)
  {
    FindingLine(line);
    FindingParse(line, canOpen);
    TwoRun(line, ParseAll(Stages(line), canOpen));
  }

  /** As written, `a |>> f` (with `f` openable) executes the pipeline whose
      second command is `f`, appending to `f`. */
  lemma FindingAsWritten(line: string, canOpen: string -> bool)
    requires line == "a |>> f" && canOpen("f")
    ensures NoNul(line) && '\n' !in line && Parsable(Stages(line))
    ensures Decide(line, canOpen) == Execute([
      Command("a", [Some("a")], false, false, None, true, false),
      Command("f", [Some("f")], true, true, Some("f"), true, false)])
  {
    FindingParse(line, canOpen);
    FindingRuns(line, canOpen);
    DecideUnfold(line, canOpen);
    Pair(ParseAll(Stages(line), canOpen));
  }

  /* ---------------------------------------------------------------------- */
  /* The corrected decision.                                                */

  /** Some stage has no words before its first `>`. */
  predicate NoCommandText(stages: seq<string>)
  {
    exists k :: 0 <= k < |stages| && HeadWords(stages[k]) == []
  }

  /** `main` with the missing-command check extended to every stage whose
      command text is empty. */
  function DecideCorrected(line: string, canOpen: string -> bool): Outcome
    requires Admissible(line)
  {
    if line == [] then Ignored
    else if PipeAtEdge(line) then Failed(MissingCommand)
    else
      StagesExist(line);
      var cmds := ParseAll(Stages(line), canOpen);
      Dispatch(line, cmds, Missing(line, cmds) || NoCommandText(Stages(line)))
  }

  lemma DecideCorrectedUnfold(line: string, canOpen: string -> bool)
    requires Admissible(line)
    requires line != [] && !PipeAtEdge(line)
    ensures Parsable(Stages(line)) && |Stages(line)| > 0
    ensures var cmds := ParseAll(Stages(line), canOpen);
      DecideCorrected(line, canOpen) == Dispatch(line, cmds, Missing(line, cmds) || NoCommandText(Stages(line)))
  {
    StagesExist(line);
  }

  /** A stage that starts with `>` has no command text. */
  lemma MarkerFirstNoText(s: string)
    requires s != [] && s[0] == '>'
    ensures HeadWords(s) == []
  {
    FindChar(s, '>');
    assert Head(s) == [];
  }

  /** A stage with command text does not start with `>`, so its parse is the
      reference parse. */
  lemma TextStageClean(s: string, canOpen: string -> bool)
    requires s != [] && NoNul(s) && ArgsFit(s) && HeadWords(s) != []
    ensures ParseStage(s, canOpen) == CleanStage(s, canOpen)
  {
    if s[0] == '>' {
      MarkerFirstNoText(s);
    }
    ParseMatchesClean(s, canOpen);
  }

  /** With the correction, every pipeline that is executed consists of the
      reference parses of its stages: each command name and argument list
      comes from the text before that stage's `>`. */
  lemma CorrectedRunsReference(line: string, canOpen: string -> bool)
    requires Admissible(line)
    requires DecideCorrected(line, canOpen).Execute?
    ensures var cmds := DecideCorrected(line, canOpen).cmds;
      |cmds| == |Stages(line)| &&
      forall k :: 0 <= k < |cmds| ==> cmds[k] == CleanStage(Stages(line)[k], canOpen)
  {
    var stages := Stages(line);
    DecideCorrectedUnfold(line, canOpen);
    var cmds := ParseAll(stages, canOpen);
    DispatchExecute(line, cmds, Missing(line, cmds) || NoCommandText(stages));
    TokensShape(line, PipeDelims);
    forall k | 0 <= k < |stages| ensures cmds[k] == CleanStage(stages[k], canOpen) {
      assert |stages[k]| > 0;
      TextStageClean(stages[k], canOpen);
    }
  }

  /** For a stage that does not start with `>`, an empty command name and an
      empty command text go together. */
  lemma NameIffText(s: string, canOpen: string -> bool)
    requires NoNul(s) && ArgsFit(s) && s != [] && s[0] != '>'
    ensures ParseStage(s, canOpen).program == "" <==> HeadWords(s) == []
  {
    ParseWords(s, canOpen);
    TokensShape(Head(s), Blanks);
    CleanProgramEmpty(HeadWords(s));
  }

  /** The correction changes nothing on lines where no stage starts with `>`. */
  lemma CorrectedAgrees(line: string, canOpen: string -> bool)
    requires Admissible(line)
    requires forall k :: 0 <= k < |Stages(line)| ==> Stages(line)[k] == [] || Stages(line)[k][0] != '>'
    ensures DecideCorrected(line, canOpen) == Decide(line, canOpen)
  {
    if line != [] && !PipeAtEdge(line) {
      var stages := Stages(line);
      DecideUnfold(line, canOpen);
      DecideCorrectedUnfold(line, canOpen);
      var cmds := ParseAll(stages, canOpen);
      TokensShape(line, PipeDelims);
      forall k | 0 <= k < |stages| ensures cmds[k].program == "" <==> HeadWords(stages[k]) == [] {
        assert |stages[k]| > 0;
        NameIffText(stages[k], canOpen);
      }
      assert NoCommandText(stages) ==> Missing(line, cmds);
    }
  }

  /** With the correction, `a |>> f` reports a missing command. */
  lemma FindingCorrected(line: string, canOpen: string -> bool)
    requires line == "a |>> f"
    ensures NoNul(line) && '\n' !in line && Parsable(Stages(line))
    ensures DecideCorrected(line, canOpen) == Failed(MissingCommand)
  {
    FindingParse(line, canOpen);
    DecideCorrectedUnfold(line, canOpen);
    assert NoCommandText(Stages(line));
  }
}
