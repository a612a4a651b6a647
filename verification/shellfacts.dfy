/** What the line decision promises: which lines are ignored, when a built-in
    runs, and exactly which lines reach execution, stated on the text of the
    line. */
module ShellFacts {
  import opened Wrappers
  import opened CString
  import opened CBuffer
  import opened Parse
  import opened ParseFacts
  import opened Checks
  import opened Shell

  /** A line of one or more spaces is ignored without a message. */
  lemma BlankLineIgnored(line: string, canOpen: string -> bool)
    requires line != [] && forall i :: 0 <= i < |line| ==> line[i] == ' '
    ensures NoNul(line) && '\n' !in line && Parsable(Stages(line))
    ensures Decide(line, canOpen) == Ignored
  {
    assert DelimFree(line, PipeDelims);
    NoDelimSingleToken(line, PipeDelims);
    FindChar(line, '>');
    TokensEmpty(line, Blanks);
    FitIff(line);
    ParseWords(line, canOpen);
  }

  /** One word fits the argument array. */
  lemma WordFits(s: string)
    requires |s| > 0 && NoNul(s) && DelimFree(s, Blanks) && '>' !in s
    ensures ArgsFit(s) && Tokens(s, Blanks) == [s]
  {
    NoDelimSingleToken(s, Blanks);
    FindChar(s, '>');
    assert Head(s) == s;
    FitIff(s);
  }

  /** The parse of one word with no `>` and no final `&`. */
  lemma WordParse(s: string, canOpen: string -> bool)
    requires |s| > 0 && NoNul(s) && DelimFree(s, Blanks) && '>' !in s && s[|s| - 1] != '&'
    ensures ArgsFit(s) && ParseStage(s, canOpen) == Command(s, [Some(s)], false, false, None, true, false)
  {
    WordFits(s);
    WordArgv(s);
    NoMarkerStage(s, canOpen);
  }

  /** One word without a final `&` is the command name and only argument. */
  lemma WordArgv(s: string)
    requires |s| > 0 && NoNul(s) && DelimFree(s, Blanks) && '>' !in s && s[|s| - 1] != '&'
    ensures CleanArgv(Tokens(s, Blanks)) == Argv(s, [Some(s)], false)
  {
    WordFits(s);
    CleanKeep([s]);
    assert Somes([s]) == [Some(s)];
  }

  /** The parse of a line that is its own only stage. */
  lemma SoleStage(line: string, canOpen: string -> bool)
    requires Stages(line) == [line] && NoNul(line) && ArgsFit(line)
    ensures Parsable(Stages(line)) && ParseAll(Stages(line), canOpen) == [ParseStage(line, canOpen)]
  {
    ParseOne([line], canOpen);
  }

  /** On a line without `>` or `|`, only an empty command name is missing. */
  lemma PlainNotMissing(line: string, c: Command)
    requires '>' !in line && '|' !in line && c.program != ""
    ensures !Missing(line, [c])
  {
    CommandValidityIff(line, c.program);
  }

  /** A line that is one word, with no `|`, `>` or final `&`, is one stage
      whose command name and only argument are the line, and no command is
      missing from it. */
  lemma SingleWord(line: string, canOpen: string -> bool)
    requires |line| > 0 && NoNul(line) && DelimFree(line, " \n|>") && line[|line| - 1] != '&'
    ensures Stages(line) == [line] && Parsable(Stages(line))
    ensures ParseAll(Stages(line), canOpen) == [Command(line, [Some(line)], false, false, None, true, false)]
    ensures !Missing(line, ParseAll(Stages(line), canOpen))
  {
    assert DelimFree(line, PipeDelims) && DelimFree(line, Blanks);
    NoDelimSingleToken(line, PipeDelims);
    assert '>' !in line && '|' !in line by {
      assert forall i :: 0 <= i < |line| ==> line[i] != '>' && line[i] != '|';
    }
    WordParse(line, canOpen);
    SoleStage(line, canOpen);
    PlainNotMissing(line, ParseStage(line, canOpen));
  }

  /** Past the pipe-edge check, the decision is the dispatch on the parsed
      stages. */
  lemma DecideUnfold(line: string, canOpen: string -> bool)
    requires Admissible(line)
    requires line != [] && !PipeAtEdge(line)
    ensures Parsable(Stages(line)) && |Stages(line)| > 0
    ensures var cmds := ParseAll(Stages(line), canOpen);
      Decide(line, canOpen) == Dispatch(line, cmds, Missing(line, cmds))
  {
    StagesExist(line);
  }

  /** Which lines each kind of dispatch result can come from. */
  lemma DispatchShape(line: string, cmds: seq<Command>, missing: bool)
    requires |cmds| > 0
    ensures Dispatch(line, cmds, missing) == Exit ==> line == "exit"
    ensures Dispatch(line, cmds, missing) == Pwd ==> line == "pwd"
  {
  }

  /** An empty line is skipped; a line that starts or ends with `|` is
      rejected as missing a command before it is split. */
  lemma DecideEdge(line: string, canOpen: string -> bool)
    requires Admissible(line)
    requires line == [] || PipeAtEdge(line)
    ensures line == [] ==> Decide(line, canOpen) == Ignored
    ensures line != [] ==> Decide(line, canOpen) == Failed(MissingCommand)
    ensures line != [] ==> line[0] == '|' || line[|line| - 1] == '|'
  {
  }

  /** A one-word line reaches the dispatch as a single stage with nothing
      missing. */
  lemma WordDecide(line: string, canOpen: string -> bool)
    requires |line| > 0 && NoNul(line) && DelimFree(line, " \n|>") && line[|line| - 1] != '&'
    ensures '\n' !in line && Parsable(Stages(line))
    ensures Decide(line, canOpen) == Dispatch(line, [Command(line, [Some(line)], false, false, None, true, false)], false)
  {
    SingleWord(line, canOpen);
    assert line[0] in line && line[|line| - 1] in line;
    assert '\n' !in line && line[0] != '|' && line[|line| - 1] != '|';
    DecideUnfold(line, canOpen);
  }

  /** The lines `exit` and `pwd` run their built-ins. */
  lemma BuiltinDecide(line: string, canOpen: string -> bool)
    requires line == "exit" || line == "pwd"
    ensures NoNul(line) && '\n' !in line && Parsable(Stages(line))
    ensures Decide(line, canOpen) == if line == "exit" then Exit else Pwd
  {
    if line == "exit" {
      var t := "exit";
      assert NoNul(t) && DelimFree(t, " \n|>") && t[3] != '&';
      WordDecide(line, canOpen);
    } else {
      var t := "pwd";
      assert NoNul(t) && DelimFree(t, " \n|>") && t[2] != '&';
      WordDecide(line, canOpen);
    }
  }

  /** `exit` needs the whole line to be exactly `exit`. */
  lemma ExitIff(line: string, canOpen: string -> bool)
    requires Admissible(line)
    ensures Decide(line, canOpen) == Exit <==> line == "exit"
  {
    if line == "exit" {
      BuiltinDecide(line, canOpen);
    } else if line == [] || PipeAtEdge(line) {
      DecideEdge(line, canOpen);
    } else {
      DecideUnfold(line, canOpen);
      DispatchShape(line, ParseAll(Stages(line), canOpen), Missing(line, ParseAll(Stages(line), canOpen)));
    }
  }

  /** `pwd` needs the whole line to be exactly `pwd`. */
  lemma PwdIff(line: string, canOpen: string -> bool)
    requires Admissible(line)
    ensures Decide(line, canOpen) == Pwd <==> line == "pwd"
  {
    if line == "pwd" {
      BuiltinDecide(line, canOpen);
    } else if line == [] || PipeAtEdge(line) {
      DecideEdge(line, canOpen);
    } else {
      DecideUnfold(line, canOpen);
      DispatchShape(line, ParseAll(Stages(line), canOpen), Missing(line, ParseAll(Stages(line), canOpen)));
    }
  }

  /** `sls` is chosen on the first command name alone, whatever pipes or
      redirections follow it, once the line is past the edge and
      missing-command checks and is neither `exit` nor `pwd`. */
  lemma SlsIff(line: string, canOpen: string -> bool)
    requires Admissible(line)
    ensures Decide(line, canOpen) == Sls <==>
      line != [] && !PipeAtEdge(line) && Parsable(Stages(line)) && |Stages(line)| > 0 &&
      var cmds := ParseAll(Stages(line), canOpen);
      !Missing(line, cmds) && line != "exit" && line != "pwd" && cmds[0].program == "sls"
  {
    if line == [] || PipeAtEdge(line) {
      DecideEdge(line, canOpen);
    } else {
      DecideUnfold(line, canOpen);
      var cmds := ParseAll(Stages(line), canOpen);
      DispatchBuiltin(line, cmds, Missing(line, cmds));
    }
  }

  /** `cd` is chosen on the first command name alone, under the same
      conditions as `sls`, and is given the first stage's second argument
      entry, or NULL when that stage has a single entry. */
  lemma CdIff(line: string, canOpen: string -> bool)
    requires Admissible(line)
    ensures Decide(line, canOpen).Cd? <==>
      line != [] && !PipeAtEdge(line) && Parsable(Stages(line)) && |Stages(line)| > 0 &&
      var cmds := ParseAll(Stages(line), canOpen);
      !Missing(line, cmds) && line != "exit" && line != "pwd" && cmds[0].program == "cd"
    ensures Decide(line, canOpen).Cd? ==>
      line != [] && !PipeAtEdge(line) && Parsable(Stages(line)) && |Stages(line)| > 0 &&
      var c := ParseAll(Stages(line), canOpen)[0];
      Decide(line, canOpen).dir == (if NumArgs(c) > 1 then c.args[1] else None)
  {
    if line == [] || PipeAtEdge(line) {
      DecideEdge(line, canOpen);
    } else {
      DecideUnfold(line, canOpen);
      var cmds := ParseAll(Stages(line), canOpen);
      DispatchBuiltin(line, cmds, Missing(line, cmds));
    }
  }

  /** The dispatch picks `cd` and `sls` on the first command name, after the
      missing-command check and the whole-line built-ins. */
  lemma DispatchBuiltin(line: string, cmds: seq<Command>, missing: bool)
    requires |cmds| > 0
    ensures Dispatch(line, cmds, missing) == Sls <==>
      !missing && line != "exit" && line != "pwd" && cmds[0].program == "sls"
    ensures Dispatch(line, cmds, missing).Cd? <==>
      !missing && line != "exit" && line != "pwd" && cmds[0].program == "cd"
    ensures Dispatch(line, cmds, missing).Cd? ==>
      Dispatch(line, cmds, missing).dir == (if NumArgs(cmds[0]) > 1 then cmds[0].args[1] else None)
  {
  }

  /** No word of a line holds a character the line does not hold. */
  lemma LastWordFree(line: string, c: char)
    requires c !in line && |Tokens(line, Blanks)| > 0
    ensures var w := Tokens(line, Blanks)[|Tokens(line, Blanks)| - 1]; |w| > 0 && w[|w| - 1] != c
  {
    var n := |Tokens(line, Blanks)|;
    var x := TokenSpans(line, Blanks)[n - 1];
    TokenWord(line, n - 1);
    assert line[x.1 - 1] in line;
  }

  /** A stage without `>` or `&` has all its words as arguments and the first
      one as command name. */
  lemma PlainParse(s: string, canOpen: string -> bool)
    requires NoNul(s) && '>' !in s && '&' !in s && 0 < |Tokens(s, Blanks)| < ARGS_MAX
    ensures ArgsFit(s)
    ensures var c := ParseStage(s, canOpen); var words := Tokens(s, Blanks);
      c.program == words[0] && c.args == Somes(words) && !c.background
  {
    TokensEmpty(s, Blanks);
    FindChar(s, '>');
    FitIff(s);
    ParseWords(s, canOpen);
    LastWordFree(s, '&');
    CleanKeep(Tokens(s, Blanks));
  }

  /** A non-empty line without `|` or newline is one stage. */
  lemma OneStage(line: string)
    requires '\n' !in line && '|' !in line && line != []
    ensures !PipeAtEdge(line) && Stages(line) == [line]
  {
    assert line[0] in line && line[|line| - 1] in line;
    assert DelimFree(line, PipeDelims);
    NoDelimSingleToken(line, PipeDelims);
  }

  lemma ParseOne(stages: seq<string>, canOpen: string -> bool)
    requires |stages| == 1 && Parsable(stages)
    ensures ParseAll(stages, canOpen) == [ParseStage(stages[0], canOpen)]
  {
  }

  /** `exit` and `pwd` are one word each. */
  lemma BuiltinWords(line: string)
    requires line == "exit" || line == "pwd"
    ensures Tokens(line, Blanks) == [line]
  {
    if line == "exit" {
      var t := "exit";
      assert DelimFree(t, Blanks);
      NoDelimSingleToken(t, Blanks);
    } else {
      var t := "pwd";
      assert DelimFree(t, Blanks);
      NoDelimSingleToken(t, Blanks);
    }
  }

  /** The dispatch of a single stage whose command name is `cd`. */
  lemma CdDispatch(line: string, c: Command, words: seq<string>)
    requires c.program == "cd" && c.args == Somes(words) && |words| > 0
    requires line != "exit" && line != "pwd" && !CheckCommandValidity(line, c.program)
    ensures Dispatch(line, [c], Missing(line, [c])) == Cd(if |words| > 1 then Some(words[1]) else None)
  {
  }

  /** A plain line (no `|`, `>` or `&`) whose first word is `cd` changes to
      the directory its second word names, or is given NULL when there is
      none; further words are ignored. */
  lemma CdLine(line: string, canOpen: string -> bool)
    requires NoNul(line) && '\n' !in line && '|' !in line && '>' !in line && '&' !in line
    requires var words := Tokens(line, Blanks); 0 < |words| < ARGS_MAX && words[0] == "cd"
    ensures Parsable(Stages(line))
    ensures var words := Tokens(line, Blanks);
      Decide(line, canOpen) == Cd(if |words| > 1 then Some(words[1]) else None)
  {
    var words := Tokens(line, Blanks);
    TokensEmpty(line, Blanks);
    OneStage(line);
    PlainParse(line, canOpen);
    DecideUnfold(line, canOpen);
    var c := ParseStage(line, canOpen);
    ParseOne(Stages(line), canOpen);
    CommandValidityIff(line, "cd");
    if line == "exit" || line == "pwd" {
      BuiltinWords(line);
    }
    CdDispatch(line, c, words);
  }

  /** When the dispatch hands over a pipeline: exactly when the line is not
      ignored, no command is missing, it is not a built-in and the gate lets
      it through; the pipeline is the parsed stages. */
  lemma DispatchExecute(line: string, cmds: seq<Command>, missing: bool)
    requires |cmds| > 0
    ensures var last := cmds[|cmds| - 1];
      Dispatch(line, cmds, missing).Execute? <==>
        !(|cmds| == 1 && cmds[0].program == "") && !missing &&
        line != "exit" && line != "pwd" && cmds[0].program != "cd" && cmds[0].program != "sls" &&
        TotalArgs(cmds) < ARGS_MAX &&
        (last.redirect ==> last.outputFile.Some? && last.openable) &&
        !CheckRedirectMislocation(line)
    ensures Dispatch(line, cmds, missing).Execute? ==> Dispatch(line, cmds, missing).cmds == cmds
  {
  }

  /** No command is missing exactly when every stage has a command name and
      no `>` or `|` comes before the first occurrence of the first one. */
  lemma MissingIff(line: string, cmds: seq<Command>)
    requires |cmds| > 0
    ensures !Missing(line, cmds) <==>
      (forall k :: 0 <= k < |cmds| ==> cmds[k].program != "") &&
      (Find(line, cmds[0].program).Some? ==>
        forall m :: 0 <= m < Find(line, cmds[0].program).value ==> line[m] !in ">|")
  {
    CommandValidityIff(line, cmds[0].program);
  }

  /** A line reaches execution exactly when: it neither is empty nor starts
      or ends with `|`; no stage has the empty command name; no `>` or `|`
      comes before the first occurrence of the first command name; it is not
      a built-in; at most 16 argument entries are used in all; a redirection
      on the last stage has a file name that could be opened; and no `>` is
      followed later by `|`. What is executed is every stage's parse. */
  lemma ExecuteIff(line: string, canOpen: string -> bool)
    requires Admissible(line)
    ensures Decide(line, canOpen).Execute? <==>
      line != [] && line[0] != '|' && line[|line| - 1] != '|' && |Stages(line)| > 0 &&
      var cmds := ParseAll(Stages(line), canOpen);
      var last := cmds[|cmds| - 1];
      (forall k :: 0 <= k < |cmds| ==> cmds[k].program != "") &&
      (Find(line, cmds[0].program).Some? ==>
        forall m :: 0 <= m < Find(line, cmds[0].program).value ==> line[m] !in ">|") &&
      line != "exit" && line != "pwd" && cmds[0].program != "cd" && cmds[0].program != "sls" &&
      TotalArgs(cmds) < ARGS_MAX &&
      (last.redirect ==> last.outputFile.Some? && last.openable) &&
      (forall i, j :: 0 <= i < j < |line| && line[i] == '>' ==> line[j] != '|')
    ensures Decide(line, canOpen).Execute? ==> Decide(line, canOpen).cmds == ParseAll(Stages(line), canOpen)
  {
    if line == [] || PipeAtEdge(line) {
      DecideEdge(line, canOpen);
    } else {
      DecideUnfold(line, canOpen);
      var cmds := ParseAll(Stages(line), canOpen);
      DispatchExecute(line, cmds, Missing(line, cmds));
      MissingIff(line, cmds);
      MislocationIff(line);
    }
  }

  /** An executed line passed the mislocation check, and what it executes is
      the parse of its stages. */
  lemma ExecutedUnmislocated(line: string, canOpen: string -> bool)
    requires Admissible(line)
    requires Decide(line, canOpen).Execute?
    ensures line != [] && !PipeAtEdge(line) && Parsable(Stages(line))
    ensures Decide(line, canOpen).cmds == ParseAll(Stages(line), canOpen)
    ensures !CheckRedirectMislocation(line)
  {
    if line == [] || PipeAtEdge(line) {
      DecideEdge(line, canOpen);
    } else {
      DecideUnfold(line, canOpen);
      var cmds := ParseAll(Stages(line), canOpen);
      DispatchExecute(line, cmds, Missing(line, cmds));
    }
  }

  /** A line without a newline that passes the mislocation check has no
      stage delimiter after its first `>`. */
  lemma UnmislocatedNoneBefore(line: string)
    requires '\n' !in line && !CheckRedirectMislocation(line)
    ensures NoneBefore(line, '>', PipeDelims)
  {
    MislocationIff(line);
    forall a, b | 0 <= a < b < |line| && line[a] == '>' ensures line[b] !in PipeDelims {
      assert line[b] in line;
    }
  }

  /** Which check of the gate rejects the parsed stages, first match
      winning; a gate failure is only reached when no command was found
      missing and the line is no built-in. */
  lemma DispatchGate(line: string, cmds: seq<Command>, missing: bool)
    requires |cmds| > 0
    ensures var o := Dispatch(line, cmds, missing); var last := cmds[|cmds| - 1];
      o.Failed? && o.failure != MissingCommand ==>
        !missing && !(|cmds| == 1 && cmds[0].program == "") &&
        line != "exit" && line != "pwd" && cmds[0].program != "cd" && cmds[0].program != "sls" &&
        (o.failure == TooManyArgs <==> TotalArgs(cmds) >= ARGS_MAX) &&
        (o.failure == NoOutputFile <==> TotalArgs(cmds) < ARGS_MAX && last.redirect && last.outputFile.None?) &&
        (o.failure == CannotOpenOutputFile <==>
          TotalArgs(cmds) < ARGS_MAX && last.redirect && last.outputFile.Some? && !last.openable) &&
        (o.failure == MislocatedRedirect ==>
          exists i, j :: 0 <= i < j < |line| && line[i] == '>' && line[j] == '|')
  {
    MislocationIff(line);
  }

  /** The gate's order on a whole line: too many arguments, then a missing
      file name on the last stage, then an output file that cannot be opened,
      then a `>` followed by a `|`. */
  lemma GatePrecedence(line: string, canOpen: string -> bool)
    requires Admissible(line)
    ensures var o := Decide(line, canOpen);
      o.Failed? && o.failure != MissingCommand ==>
        line != [] && !PipeAtEdge(line) && |Stages(line)| > 0 &&
        var cmds := ParseAll(Stages(line), canOpen); var last := cmds[|cmds| - 1];
        (forall k :: 0 <= k < |cmds| ==> cmds[k].program != "") &&
        line != "exit" && line != "pwd" && cmds[0].program != "cd" && cmds[0].program != "sls" &&
        (o.failure == TooManyArgs <==> TotalArgs(cmds) >= ARGS_MAX) &&
        (o.failure == NoOutputFile <==> TotalArgs(cmds) < ARGS_MAX && last.redirect && last.outputFile.None?) &&
        (o.failure == CannotOpenOutputFile <==>
          TotalArgs(cmds) < ARGS_MAX && last.outputFile.Some? && !last.openable) &&
        (o.failure == MislocatedRedirect ==>
          exists i, j :: 0 <= i < j < |line| && line[i] == '>' && line[j] == '|')
  {
    if line == [] || PipeAtEdge(line) {
      DecideEdge(line, canOpen);
    } else {
      DecideUnfold(line, canOpen);
      var cmds := ParseAll(Stages(line), canOpen);
      DispatchGate(line, cmds, Missing(line, cmds));
    }
  }

  /** In a pipeline that is executed only the last stage redirects its output:
      every earlier stage has neither a redirection nor an output file. */
  lemma OnlyLastRedirects(line: string, canOpen: string -> bool)
    requires Admissible(line)
    requires Decide(line, canOpen).Execute?
    ensures var cmds := Decide(line, canOpen).cmds;
      forall k :: 0 <= k < |cmds| - 1 ==> !cmds[k].redirect && cmds[k].outputFile.None?
  {
    ExecutedUnmislocated(line, canOpen);
    UnmislocatedNoneBefore(line);
    MarkOnlyInLast(line, '>', PipeDelims);
  }

  /** The stages got past every check that comes before the gate: the line is
      not a single empty stage, no command is missing and it is no built-in. */
  predicate PastBuiltins(line: string, cmds: seq<Command>, missing: bool)
    requires |cmds| > 0
  {
    !(|cmds| == 1 && cmds[0].program == "") && !missing &&
    line != "exit" && line != "pwd" && cmds[0].program != "cd" && cmds[0].program != "sls"
  }

  /** A line is ignored exactly when it is empty or, past the edge checks, it
      is a single stage whose command name is empty. */
  lemma IgnoredIff(line: string, canOpen: string -> bool)
    requires Admissible(line)
    ensures Decide(line, canOpen) == Ignored <==>
      line == [] ||
      (!PipeAtEdge(line) && Parsable(Stages(line)) && |Stages(line)| == 1 &&
       ParseAll(Stages(line), canOpen)[0].program == "")
  {
    if line == [] || PipeAtEdge(line) {
      DecideEdge(line, canOpen);
    } else {
      DecideUnfold(line, canOpen);
      var cmds := ParseAll(Stages(line), canOpen);
      DispatchReachesGate(line, cmds, Missing(line, cmds));
    }
  }

  /** A missing command is reported exactly when the line starts or ends with
      `|`, or, past that, it is not a single empty stage and a command is
      found missing. */
  lemma MissingOutcomeIff(line: string, canOpen: string -> bool)
    requires Admissible(line)
    ensures Decide(line, canOpen) == Failed(MissingCommand) <==>
      line != [] &&
      (PipeAtEdge(line) ||
       (Parsable(Stages(line)) && |Stages(line)| > 0 &&
        var cmds := ParseAll(Stages(line), canOpen);
        !(|cmds| == 1 && cmds[0].program == "") && Missing(line, cmds)))
  {
    if line == [] || PipeAtEdge(line) {
      DecideEdge(line, canOpen);
    } else {
      DecideUnfold(line, canOpen);
      var cmds := ParseAll(Stages(line), canOpen);
      DispatchReachesGate(line, cmds, Missing(line, cmds));
    }
  }

  /** The dispatch ignores a single empty stage, then reports a missing
      command, and hands the stages to the gate exactly when they got past
      the earlier checks; otherwise its outcome is neither a pipeline nor a
      gate failure. */
  lemma DispatchReachesGate(line: string, cmds: seq<Command>, missing: bool)
    requires |cmds| > 0
    ensures Dispatch(line, cmds, missing) == Ignored <==> |cmds| == 1 && cmds[0].program == ""
    ensures Dispatch(line, cmds, missing) == Failed(MissingCommand) <==>
      !(|cmds| == 1 && cmds[0].program == "") && missing
    ensures PastBuiltins(line, cmds, missing) ==> Dispatch(line, cmds, missing) == Gate(line, cmds)
    ensures !PastBuiltins(line, cmds, missing) ==>
      var o := Dispatch(line, cmds, missing);
      !o.Execute? && (o.Failed? ==> o.failure == MissingCommand)
  {
  }

  /** The gate's four checks in order, first match winning, each stated both
      ways; stages that pass all four are executed as they are. */
  lemma GateIff(line: string, cmds: seq<Command>)
    requires |cmds| > 0
    ensures var o := Gate(line, cmds); var last := cmds[|cmds| - 1];
      var fits := TotalArgs(cmds) < ARGS_MAX;
      var fileOk := last.redirect ==> last.outputFile.Some? && last.openable;
      var markBeforePipe := exists i, j :: 0 <= i < j < |line| && line[i] == '>' && line[j] == '|';
      (o == Failed(TooManyArgs) <==> !fits) &&
      (o == Failed(NoOutputFile) <==> fits && last.redirect && last.outputFile.None?) &&
      (o == Failed(CannotOpenOutputFile) <==>
        fits && last.redirect && last.outputFile.Some? && !last.openable) &&
      (o == Failed(MislocatedRedirect) <==> fits && fileOk && markBeforePipe) &&
      (o == Execute(cmds) <==> fits && fileOk && !markBeforePipe) &&
      (o.Failed? || o == Execute(cmds))
  {
    MislocationIff(line);
  }

  /** A line past the edge checks whose stages get past the single-empty-stage,
      missing-command and built-in checks is decided by the gate alone. */
  lemma GateReached(line: string, canOpen: string -> bool)
    requires Admissible(line)
    requires line != [] && !PipeAtEdge(line)
    ensures Parsable(Stages(line)) && |Stages(line)| > 0
    ensures var cmds := ParseAll(Stages(line), canOpen);
      PastBuiltins(line, cmds, Missing(line, cmds)) ==> Decide(line, canOpen) == Gate(line, cmds)
    ensures var cmds := ParseAll(Stages(line), canOpen);
      var o := Decide(line, canOpen);
      !PastBuiltins(line, cmds, Missing(line, cmds)) ==>
        !o.Execute? && (o.Failed? ==> o.failure == MissingCommand)
  {
    DecideUnfold(line, canOpen);
    var cmds := ParseAll(Stages(line), canOpen);
    DispatchReachesGate(line, cmds, Missing(line, cmds));
  }

  /** A `>` followed later by `|` is reported as a mislocated redirection
      exactly when the line reaches the gate with at most 16 argument entries
      and a usable output file on its last stage. */
  lemma MislocatedIff(line: string, canOpen: string -> bool)
    requires Admissible(line)
    ensures Decide(line, canOpen) == Failed(MislocatedRedirect) <==>
      line != [] && !PipeAtEdge(line) && Parsable(Stages(line)) && |Stages(line)| > 0 &&
      var cmds := ParseAll(Stages(line), canOpen); var last := cmds[|cmds| - 1];
      PastBuiltins(line, cmds, Missing(line, cmds)) &&
      TotalArgs(cmds) < ARGS_MAX &&
      (last.redirect ==> last.outputFile.Some? && last.openable) &&
      exists i, j :: 0 <= i < j < |line| && line[i] == '>' && line[j] == '|'
  {
    if line == [] || PipeAtEdge(line) {
      DecideEdge(line, canOpen);
    } else {
      GateReached(line, canOpen);
      GateIff(line, ParseAll(Stages(line), canOpen));
    }
  }
}
