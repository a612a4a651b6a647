# sshell command-line front end in Dafny

This project models the front end of `sshell`, a small Unix shell. The front
end takes one input line, with its trailing newline already cut off, and
decides what to do with it without starting any process. The possible
outcomes are:

- ignore the line;
- print one error message;
- run one of the built-ins `exit`, `pwd`, `cd` or `sls`;
- hand a validated pipeline of parsed commands over for execution.

It also models what is printed on standard error for each outcome: the error
messages and the completion line `+ completed '<line>' [c1][c2]...`.

The modules follow the source:

- `CString` — C string scanning on immutable text: `strstr` as `Find`, and
  `strtok` as the token spans of a string (`Tokens`).
- `CBuffer` — `strtok` as glibc runs it, over a writable NUL-terminated
  buffer (`BufStrtok`). It writes a terminator over each delimiter it
  consumes and resumes after it. `StrtokNext` ties one call to the pure token
  model.
- `Checks` — `checkRedirectMislocation` and `checkCommandValidity`.
- `Parse` — `parseCommandLine` as the same sequence of `strtok` calls and
  in-place writes over a copy of the stage (`ParseStage`). The `open` probe is
  a parameter `canOpen`. Next to it sits a reference parse stated on the text
  alone (`CleanStage`).
- `ParseFacts` — what the stage parse promises, stated on the stage text.
- `Shell` — `getPipeCount`, the `strtok_r` stage loop of `main`, and the line
  decision of `main` (`Decide`). The decision keeps the source's order: empty
  line, `|` at an edge, single empty stage, missing command, built-ins, then
  the execution gate.
- `ShellFacts` — what the line decision promises, stated on the line.
- `Report` — the standard-error text of each outcome, with readers that
  recover the failure and the exit codes from it.
- `Finding` — one discrepancy in the parse of stages that start with `>>`, in
  both the as-written and the corrected form.

Points worth noting, all following the code:

- The completion line of a pipeline prints `[0]` for every stage but the last.
  The array of codes is zeroed, and only the status of the one child `main`
  waits for is stored into it, in the last slot (sshell.c:485-510). It does
  not print each stage's own code. Since `attachPipe` runs `execvp` in the
  parent branch of its `fork` (sshell.c:40-51), in a pipeline of several
  stages that child is the first stage, so the last slot shows the first
  stage's status.
- The trailing-`&` check and strip runs on every stage's last argument
  (sshell.c:234-246), not only on the last stage of the pipeline.
- A stage other than the last may parse with a redirection. Such a line is
  never executed as a pipeline: only the last stage of an executed pipeline
  redirects (`ShellFacts.OnlyLastRedirects`). It may still run `cd` or `sls`,
  which are chosen on the first command name before the redirection checks
  (`ShellFacts.CdIff`, `ShellFacts.SlsIff`).
- `cd` without a directory calls `chdir` on NULL (sshell.c:427), which
  fails, so it always reports the error and the code 1.

## Model

| member | source | states |
|---|---|---|
| CBuffer.StrtokNext | sshell.c:257-262 | One `strtok` call returns NULL exactly when no token is left. Otherwise it returns the start of the next token, which reads back as that token, and leaves the rest of the string in place for the next call. |
| Checks.CheckRedirectMislocation | sshell.c:143-154 | `checkRedirectMislocation` fires only on a line holding both `>` and `\|`. The exact condition is stated by `Checks.MislocationIff`. |
| Checks.MislocationIff | sshell.c:143-154 | The mislocation check fires exactly when some `>` is followed, anywhere later, by a `\|`. A `\|` that comes only before every `>` is accepted. |
| Checks.CheckCommandValidity | sshell.c:118-140 | `checkCommandValidity` fires only when the keyword occurs, and never when it first occurs at the start of the line. The exact condition is stated by `Checks.CommandValidityIff`. |
| Checks.CommandValidityIff | sshell.c:118-140 | The validity check fires exactly when the keyword occurs and some `>` or `\|` comes before its first occurrence. It never fires on a line holding neither character. |
| Checks.EmptyKeywordValid | sshell.c:118-140 | The empty command name occurs at the start of every line, so the validity check never fires on it. |
| Shell.PipeCount | sshell.c:253-264 | `getPipeCount` returns the number of non-empty `\|`-free sections of the line. |
| Shell.SplitStages | sshell.c:375-385 | The `strtok_r` loop, run as many times as `getPipeCount` says, yields exactly the stages of the line, in order. |
| Shell.StageCount | sshell.c:361-385 | Without a newline, the stages are the non-empty `\|`-separated fields, and there are as many as `getPipeCount` counts. The fields, empty ones included, join back into the line with `\|`. |
| Shell.DoublePipe | sshell.c:375-385 | `a\|\|b` gives the two stages `a` and `b`; the empty section is skipped, not reported. |
| Parse.ParseStage | sshell.c:167-249 | A stage redirects exactly when it holds `>`. Append mode and an output file imply a redirection. A stage without redirection counts as openable. `numArgs` lies between 1 and 16. |
| Parse.ParseMatchesClean | sshell.c:167-249 | For every stage that does not start with `>`, the parse with all its buffer writes equals the reference parse stated on the text. |
| ParseFacts.FitIff | sshell.c:206-232 | The argument array of a stage that does not start with `>` overflows exactly when its command text has 17 words or more. |
| ParseFacts.ParseWords | sshell.c:206-246 | For a stage that does not start with `>`: the command name, arguments and background flag of a stage are those of the blank-separated words before its first `>`. |
| ParseFacts.CleanArgvShape | sshell.c:213-248 | There is one argument entry per word, and the empty name when there is none. Every word but the last is kept. The last word ending in `&` sets background. It becomes NULL when it starts with `&`, and otherwise loses its final `&`. The first entry is the command name. |
| ParseFacts.CleanArgsAreWords | sshell.c:220-232 | Every argument that is not NULL is a non-empty word without blanks. |
| ParseFacts.CleanProgramEmpty | sshell.c:213-218 | The command name is empty exactly when the command text has no words. |
| ParseFacts.ParseFile | sshell.c:186-203 | For a stage that does not start with `>`: the output file is the first blank-separated token one past the first `>`, or two past it when `>>` occurs anywhere. The open probe is made on that name, and a missing name counts as not openable. |
| ParseFacts.AppendIff | sshell.c:186-188 | Append mode is set exactly when two `>` stand next to each other anywhere in the stage. |
| ParseFacts.ArgCount | sshell.c:220-248 | For a stage that does not start with `>`: `numArgs` equals the number of words of the command text, or 1 for none. This holds even when the background check drops or shortens the last word. |
| ParseFacts.NoMarkerStage | sshell.c:206-248 | A stage without `>` has no redirection, no output file, and the reference arguments of its words. |
| ParseFacts.DoubleAmpersand | sshell.c:234-248 | `ls &&` runs `ls` in the background. The argument `&&` becomes NULL but is still counted in `numArgs`. |
| Shell.Decide | sshell.c:357-481 | The decision of `main` for one line. An ignored line is empty or a single stage; an executed line has no `\|` at either end and runs one command per stage. Each outcome is stated both ways by `ShellFacts.IgnoredIff`, `ShellFacts.MissingOutcomeIff`, `ShellFacts.ExitIff`, `ShellFacts.PwdIff`, `ShellFacts.CdIff`, `ShellFacts.SlsIff`, `ShellFacts.GateReached` and `ShellFacts.ExecuteIff`. |
| Shell.Dispatch | sshell.c:388-438 | The checks after splitting: only a single stage can be ignored, and a pipeline is handed over only when no command is missing and the gate lets it through. The order of the checks is stated by `ShellFacts.DispatchReachesGate`, `ShellFacts.DispatchBuiltin` and `ShellFacts.DispatchExecute`. |
| Shell.Gate | sshell.c:465-481 | The gate either rejects with one of its own four failures, never a missing command, or executes the stages as they are; it executes only within the argument bound and without a `>` before a `\|`. Each check is stated both ways by `ShellFacts.GateIff`. |
| ShellFacts.IgnoredIff | sshell.c:357-402 | A line is ignored exactly when it is empty or, with no `\|` at either end, it is a single stage whose command name is empty. |
| ShellFacts.MissingOutcomeIff | sshell.c:361-408 | "missing command" is reported exactly when the line starts or ends with `\|`, or, past that check, it is not a single empty stage and a command is missing. |
| ShellFacts.BlankLineIgnored | sshell.c:398-402 | A line of spaces only is ignored without a message. |
| ShellFacts.DecideEdge | sshell.c:357-366 | The empty line is ignored. A line that starts or ends with `\|` is rejected as missing a command before it is split, however many words its stages have. |
| ShellFacts.ExitIff | sshell.c:412-416 | The line is `exit` exactly when `exit` is chosen. No other spelling, such as extra blanks, is taken for it. |
| ShellFacts.PwdIff | sshell.c:418-424 | The line is `pwd` exactly when `pwd` is chosen. |
| ShellFacts.SlsIff | sshell.c:388-438 | `sls` is chosen exactly when the line is past the edge and missing-command checks, is neither `exit` nor `pwd`, and its first command name is `sls`, whatever pipes or redirections follow. |
| ShellFacts.CdIff | sshell.c:388-427 | `cd` is chosen exactly when the line is past the edge and missing-command checks, is neither `exit` nor `pwd`, and its first command name is `cd`. It is given the first stage's second argument entry, or NULL when there is none. |
| ShellFacts.CdLine | sshell.c:426-435 | A plain line whose first word is `cd` changes to the directory its second word names, or is given NULL when there is none. Further words are ignored. |
| ShellFacts.MissingIff | sshell.c:388-396 | No command is missing exactly when every stage has a command name and no `>` or `\|` comes before the first occurrence of the first command name. |
| ShellFacts.ExecuteIff | sshell.c:357-481 | A line is executed exactly when all of these hold: no edge `\|`; every stage has a command name; no `>` or `\|` before the first command name; it is not a built-in; fewer than 17 argument entries in all; a redirection on the last stage has a file that could be opened; no `>` followed by `\|`. What runs is the parse of every stage. |
| ShellFacts.DispatchGate | sshell.c:277-288 | The gate rejects for too many arguments exactly when the total `numArgs` exceeds 16. It rejects for no output file or an unopenable file exactly when the earlier checks pass and that check fails. It rejects for mislocation only when a `>` precedes a `\|`. Any gate failure comes after the missing-command check and the built-ins. |
| ShellFacts.GatePrecedence | sshell.c:465-481 | The same first-match order stated for a whole line: too many arguments, then no output file, then an output file that cannot be opened, then a mislocated redirection. |
| ShellFacts.DispatchReachesGate | sshell.c:388-438 | After splitting, a single empty stage is ignored, then a missing command is reported, and the stages reach the gate exactly when they get past these checks and are no built-in; otherwise the outcome is neither a pipeline nor a gate failure. |
| ShellFacts.GateIff | sshell.c:465-481 | Each of the gate's four checks, first match winning, both ways: too many arguments exactly when the total exceeds 16; no output file, then an unopenable file, exactly when the earlier checks pass and that one fails; mislocation exactly when those pass and some `>` precedes a `\|`; execution exactly when all pass. |
| ShellFacts.GateReached | sshell.c:388-481 | A line past the edge, single-empty-stage, missing-command and built-in checks is decided by the gate alone; a line that does not get past them is never executed and never fails at the gate. |
| ShellFacts.MislocatedIff | sshell.c:465-481 | A mislocated redirection is reported exactly when the line reaches the gate, has at most 16 argument entries, has a usable output file on its last stage if it redirects, and holds a `>` followed later by a `\|`. |
| ShellFacts.OnlyLastRedirects | sshell.c:471-481 | In an executed pipeline, no stage but the last has a redirection or an output file. |
| Finding.AppendStageAsWritten | sshell.c:186-218 | As written, the stage `>> f` parses to the command `f` appending to the file `f`. Its command text nevertheless has no words. |
| Finding.FindingAsWritten | sshell.c:357-514 | As written, `a \|>> f` with `f` openable is executed as the two-stage pipeline `a \| f >> f`. |
| Finding.FindingCorrected | sshell.c:388-408 | With the missing-command check extended to stages without command text, `a \|>> f` is rejected as missing a command. |
| Finding.CorrectedRunsReference | sshell.c:167-249 | With the correction, every executed stage is parsed exactly as the reference parse says. |
| Finding.CorrectedAgrees | sshell.c:388-408 | The correction changes nothing on lines where no stage starts with `>`. |
| Finding.NameIffText | sshell.c:213-218 | For a stage that does not start with `>`, the empty command name and the absence of command words coincide. |
| Report.Message | sshell.c:471-481 | Each failure prints one line that starts with `Error: `. The failure can be read back from the line, so different failures print different messages. |
| Report.DigitsValue | sshell.c:506-510 | Every canonical digit string is what `%d` prints for its value. |
| Report.ValueDigits | sshell.c:506-510 | Reading back the digits `%d` prints gives the number. |
| Report.ParseBracketsRoundTrip | sshell.c:506-510 | Reading the printed `[c1][c2]...` list gives back the codes. |
| Report.ParseBracketsExact | sshell.c:506-510 | Whatever the reader accepts is the printed form of what it returns. |
| Report.CompletionRoundTrip | sshell.c:506-510 | The completion line of a command carries exactly its codes. |
| Report.PipelineCodes | sshell.c:485-510 | The codes printed for `n` stages are `n` values: zero for every stage but the last, and the exit status of the waited-for child in the last slot. They are the list `ExitCodes` that the completion line is built from. |
| Report.ExecuteReport | sshell.c:484-510 | The completion line of an executed pipeline names the line and reads back as zero for every stage but the last, whose slot holds the waited-for status. |
| Report.Stderr | sshell.c:471-510 | The standard-error text of each outcome; only an ignored line writes nothing. The text of each outcome is stated by `Report.FailedReport`, `Report.BuiltinReport`, `Report.SlsReport` and `Report.ExecuteReport`. |
| Report.FailedReport | sshell.c:471-481 | A rejected line prints only its message. The failure can be read back from it, and no completion line can be. |
| Report.BuiltinReport | sshell.c:412-435 | `exit`, `pwd` and `cd` report on the whole line with one code: 0, except 1 for a failed `cd`. A `cd` without a directory always fails. `exit` prints `Bye...` first, and a failed `cd` prints its error first. |
| Report.SlsReport | sshell.c:438-461 | `sls` reports on `sls`, not on the line, with the number of entries it listed. When the directory cannot be opened, it prints an error line and then the code 1. |

## Left out

- Process plumbing: `attachPipe` and `commandPipe` (sshell.c:37-115), that is `fork`, `pipe`, `dup2`, `execvp` and "command not found". The model stops at the pipeline it would hand over.
- Waiting for the pipeline (`wait`/`waitpid`) is left out. The status `WEXITSTATUS` yields is the parameter `World.status`, of type `Report.ExitStatus` (0 to 255). It can never be -1, so the `-1` break in `main` (sshell.c:502-504) is unreachable in the model.
- The effects of `chdir`, `getcwd` and `scandir`/`alphasort` (sshell.c:418-461) are left out. Only the decision is modelled. Their results are the `World` parameters `cdOk` (consulted only when `cd` names a directory) and `entries`, and `perror`'s system text is `reason`.
- The `open` probe (sshell.c:199-203) is the parameter `canOpen`. Opening a NULL name is taken to fail. The probe opens with `O_CREAT`, so it creates the file even for a line that is later rejected or never executed; that side effect on the file system is not modelled.
- The read loop is left out: prompt, `fgets`, `isatty` echo, and the newline strip (sshell.c:329-349). `Decide` takes the line without its newline. Truncation at `CMDLINE_MAX` (512) is not modelled.
- `executeNonBuiltInCommands` (sshell.c:269-324) is never called by `main`. Its gate is the same `Shell.Gate` that `main` uses (sshell.c:465-481), and its process part is left out as above.
- Shell.Decide: a stage with 17 or more words overflows `argsArray` (sshell.c:224, 230). This is the precondition `Admissible`, not modelled behaviour. It binds only lines that get past the empty-line and edge checks, since only those are split and parsed.
- Report.Stderr: more than `PIPES_MAX` (4) stages index `rets` out of bounds (sshell.c:501-508). This is the precondition `1 <= |cmds| <= 4`.
- Parse.ParseStage: for a stage with no words, the background check reads the character before the empty string (sshell.c:235). The model takes that character to be other than `&`.
- Checks.CheckCommandValidity: when the keyword does not occur, `strstr` returns NULL, and comparing NULL with the marker's position (sshell.c:127, 134) is taken as "not after".
- Strings never contain NUL (`NoNul`), as text read by `fgets` and passed on as C strings cannot.

## Findings

| source | as written | input that shows it | evidently intended | confidence | as-written member | corrected member |
|---|---|---|---|---|---|---|
| sshell.c:186-218 | A stage that starts with `>>` has no command text. Yet `strtok(cmdStr, ">")` skips the leading markers, so the file name becomes the command, and `main`'s missing-command check (sshell.c:388-396) does not see an empty name. | `a \|>> f` with `f` openable: executes `a` piped into `f >> f` | Report "Error: missing command", as for any stage without a command | not executed | Finding.FindingAsWritten | Finding.FindingCorrected |
