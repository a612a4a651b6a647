/** What `main` writes to standard error once it has decided what to do with
    a line: one message per failure, and the completion line
    `+ completed '<line>' [c1][c2]...` after a built-in or a pipeline. The
    exit status of a pipeline, the result of `chdir` and of `scandir` come
    from the environment and are parameters here. */
module Report {
  import opened Wrappers
  import opened Parse
  import opened Shell

  /** The size of the array of exit codes. */
  const PIPES_MAX: nat := 4

  /* ---------------------------------------------------------------------- */
  /* Error messages.                                                        */

  /** Reads the text of a message back to the failure it names. */
  function ReasonOf(r: string): Option<Failure>
  {
    if r == "missing command" then Some(MissingCommand)
    else if r == "too many process arguments" then Some(TooManyArgs)
    else if r == "no output file" then Some(NoOutputFile)
    else if r == "cannot open output file" then Some(CannotOpenOutputFile)
    else if r == "mislocated output redirection" then Some(MislocatedRedirect)
    else None
  }

  /** The text of each message between `Error: ` and the newline. */
  function Reason(f: Failure): (r: string)
    ensures ReasonOf(r) == Some(f)
    ensures '\n' !in r && |r| > 0
  {
    match f
    case MissingCommand => "missing command"
    case TooManyArgs => "too many process arguments"
    case NoOutputFile => "no output file"
    case CannotOpenOutputFile => "cannot open output file"
    case MislocatedRedirect => "mislocated output redirection"
  }

  const ErrorTag: string := "Error: "

  /** Reads an error message back to the failure it reports. */
  function FailureOf(m: string): Option<Failure>
  {
    if |m| > |ErrorTag| && m[..|ErrorTag|] == ErrorTag && m[|m| - 1] == '\n' then
      ReasonOf(m[|ErrorTag|..|m| - 1])
    else None
  }

  lemma Framed(p: string, r: string, c: char)
    ensures var m := p + r + [c];
      m[..|p|] == p && m[|p|..|m| - 1] == r && m[|m| - 1] == c
  {
    var m := p + r + [c];
    assert m[|p|..|m| - 1] == r;
  }

  /** The message each failure prints: one line starting with `Error: `, and
      different failures print different messages. */
  function Message(f: Failure): (m: string)
    ensures FailureOf(m) == Some(f)
    ensures |m| > |ErrorTag| && m[..|ErrorTag|] == ErrorTag && m[|m| - 1] == '\n'
    ensures forall i :: 0 <= i < |m| - 1 ==> m[i] != '\n'
  {
    var r := Reason(f);
    Framed(ErrorTag, r, '\n');
    ErrorTag + r + "\n"
  }

  /* ---------------------------------------------------------------------- */
  /* `%d` of a non-negative number.                                         */

  predicate IsDigit(c: char)
  {
    '0' <= c <= '9'
  }

  /** The text `%d` prints for some number: digits, no leading zero. */
  predicate Canonical(d: string)
  {
    |d| > 0 && (forall i :: 0 <= i < |d| ==> IsDigit(d[i])) && (|d| > 1 ==> d[0] != '0')
  }

  /** The decimal digits of `n`. */
  function Digits(n: nat): (d: string)
    ensures Canonical(d)
    ensures n < 10 <==> |d| == 1
  {
    if n < 10 then [('0' as int + n) as char]
    else Digits(n / 10) + [('0' as int + n % 10) as char]
  }

  /** The number a string of digits denotes. */
  function Value(d: string): nat
    requires forall i :: 0 <= i < |d| ==> IsDigit(d[i])
  {
    if d == [] then 0
    else
      assert IsDigit(d[|d| - 1]);
      Value(d[..|d| - 1]) * 10 + (d[|d| - 1] as int - '0' as int)
  }

  /** Reading the digits back gives the number. */
  lemma {:induction false} ValueDigits(n: nat)
    ensures Value(Digits(n)) == n
  {
    if n >= 10 {
      ValueDigits(n / 10);
      var d := Digits(n);
      assert d[..|d| - 1] == Digits(n / 10);
    }
  }

  /** A string of digits without a leading zero other than `0` itself has a
      non-zero value. */
  lemma {:induction false} ValueLeading(d: string)
    requires |d| > 0 && (forall i :: 0 <= i < |d| ==> IsDigit(d[i])) && d[0] != '0'
    ensures Value(d) > 0
  {
    if |d| > 1 {
      ValueLeading(d[..|d| - 1]);
    }
  }

  /** Every canonical digit string is what `%d` prints for its value, so
      `Digits` and `Value` are inverse bijections between numbers and
      canonical strings. */
  lemma {:induction false} DigitsValue(d: string)
    requires Canonical(d)
    ensures Digits(Value(d)) == d
  {
    if |d| > 1 {
      var p := d[..|d| - 1];
      var c := d[|d| - 1] as int - '0' as int;
      assert Canonical(p);
      DigitsValue(p);
      ValueLeading(p);
      assert Value(d) == Value(p) * 10 + c;
      DivStep(Value(p), c);
      assert Digits(Value(d)) == Digits(Value(p)) + [('0' as int + c) as char];
      assert d == p + [d[|d| - 1]];
    }
  }

  /** Appending a decimal digit to `v` and dividing by ten gives `v` back. */
  lemma DivStep(v: nat, c: int)
    requires 0 <= c < 10
    ensures (v * 10 + c) / 10 == v && (v * 10 + c) % 10 == c
  {
  }

  /* ---------------------------------------------------------------------- */
  /* The list of exit codes.                                                */

  /** `[%d]` for each code, in order. */
  function Brackets(codes: seq<nat>): string
  {
    if codes == [] then "" else "[" + Digits(codes[0]) + "]" + Brackets(codes[1..])
  }

  /** The length of the run of digits `s` starts with. */
  function DigitRun(s: string): (k: nat)
    ensures k <= |s| && (forall i :: 0 <= i < k ==> IsDigit(s[i])) && (k < |s| ==> !IsDigit(s[k]))
  {
    if s == [] || !IsDigit(s[0]) then 0 else 1 + DigitRun(s[1..])
  }

  /** Reads a list of bracketed codes; None unless the text is exactly what
      `Brackets` prints for some list. */
  function ParseBrackets(s: string): Option<seq<nat>>
    decreases |s|
  {
    if s == [] then Some([])
    else if s[0] != '[' then None
    else
      var k := 1 + DigitRun(s[1..]);
      if k < |s| && s[k] == ']' && Canonical(s[1..k]) then
        match ParseBrackets(s[k + 1..])
        case None => None
        case Some(rest) => Some([Value(s[1..k])] + rest)
      else None
  }

  lemma {:induction false} DigitRunOf(d: string, r: string)
    requires forall i :: 0 <= i < |d| ==> IsDigit(d[i])
    requires r != [] && !IsDigit(r[0])
    ensures DigitRun(d + r) == |d|
  {
    if d != [] {
      assert (d + r)[1..] == d[1..] + r;
      DigitRunOf(d[1..], r);
    }
  }

  lemma Pieces(a: char, d: string, b: char, r: string)
    ensures var s := [a] + d + [b] + r;
      s[0] == a && s[1..] == d + ([b] + r) && s[1 + |d|] == b && s[1..1 + |d|] == d && s[2 + |d|..] == r
  {
    var s := [a] + d + [b] + r;
    assert s[1..] == d + ([b] + r);
    assert s[1..1 + |d|] == d;
  }

  /** Reading the printed list gives back the codes. */
  lemma {:induction false} ParseBracketsRoundTrip(codes: seq<nat>)
    ensures ParseBrackets(Brackets(codes)) == Some(codes)
  {
    if codes != [] {
      var d := Digits(codes[0]);
      var rest := Brackets(codes[1..]);
      Pieces('[', d, ']', rest);
      DigitRunOf(d, "]" + rest);
      ValueDigits(codes[0]);
      ParseBracketsRoundTrip(codes[1..]);
      assert [codes[0]] + codes[1..] == codes;
    }
  }

  lemma Around(s: string, k: nat)
    requires 0 < k < |s|
    ensures s == [s[0]] + s[1..k] + [s[k]] + s[k + 1..]
  {
    assert s == s[..1] + s[1..k] + s[k..k + 1] + s[k + 1..];
  }

  /** Whatever the reader accepts is the printed form of what it returns. */
  lemma {:induction false} ParseBracketsExact(s: string)
    requires ParseBrackets(s).Some?
    ensures Brackets(ParseBrackets(s).value) == s
    decreases |s|
  {
    if s != [] {
      var k := 1 + DigitRun(s[1..]);
      var d := s[1..k];
      var codes := ParseBrackets(s).value;
      ParseBracketsExact(s[k + 1..]);
      DigitsValue(d);
      assert codes[0] == Value(d) && codes[1..] == ParseBrackets(s[k + 1..]).value;
      Around(s, k);
    }
  }

  /* ---------------------------------------------------------------------- */
  /* The completion line.                                                   */

  /** What precedes the codes on the completion line of `cmd`. */
  function Lead(cmd: string): string
  {
    "+ completed '" + cmd + "' "
  }

  /** `+ completed '<cmd>' ` followed by the codes and a newline. */
  function CompletionLine(cmd: string, codes: seq<nat>): string
  {
    Lead(cmd) + Brackets(codes) + "\n"
  }

  /** Reads the codes off a completion line, knowing which command it is for. */
  function ReadCompletion(text: string, cmd: string): Option<seq<nat>>
  {
    var lead := Lead(cmd);
    if |text| > |lead| && text[..|lead|] == lead && text[|text| - 1] == '\n' then
      ParseBrackets(text[|lead|..|text| - 1])
    else None
  }

  /** The completion line of a command carries exactly its codes. */
  lemma CompletionRoundTrip(cmd: string, codes: seq<nat>)
    ensures ReadCompletion(CompletionLine(cmd, codes), cmd) == Some(codes)
  {
    var text := CompletionLine(cmd, codes);
    var lead := Lead(cmd);
    assert text[..|lead|] == lead;
    assert text[|lead|..|text| - 1] == Brackets(codes);
    ParseBracketsRoundTrip(codes);
  }

  /** The codes of a pipeline of `n` stages as `main` prints them: its array
      of `PIPES_MAX` codes is set to zero, the last stage's entry gets the
      exit status of the child it waited for, and the first `n` entries are
      printed. */
  method PipelineCodes(n: nat, status: nat) returns (codes: seq<nat>)
    requires 1 <= n <= PIPES_MAX
    ensures |codes| == n && codes[n - 1] == status
    ensures forall i :: 0 <= i < n - 1 ==> codes[i] == 0
    ensures codes == ExitCodes(n, status)
  {
    var rets: seq<nat> := [];
    while |rets| < PIPES_MAX
      invariant |rets| <= PIPES_MAX
      invariant forall i :: 0 <= i < |rets| ==> rets[i] == 0
    {
      rets := rets + [0];
    }
    rets := rets[n - 1 := status];
    codes := [];
    var i := 0;
    while i < n
      invariant i <= n && codes == rets[..i]
    {
      codes := codes + [rets[i]];
      i := i + 1;
    }
    ExitCodesShape(n, status);
  }

  /** The codes `PipelineCodes` prints, as a value: zeros, then the status. */
  function ExitCodes(n: nat, status: nat): (codes: seq<nat>)
    requires n >= 1
  {
    seq(n - 1, _ => 0) + [status]
  }

  lemma ExitCodesShape(n: nat, status: nat)
    requires n >= 1
    ensures var codes := ExitCodes(n, status);
      |codes| == n && codes[n - 1] == status && forall i :: 0 <= i < n - 1 ==> codes[i] == 0
  {
  }

  /* ---------------------------------------------------------------------- */
  /* The standard-error text of a line.                                     */

  /** An exit status as `WEXITSTATUS` extracts it: the low eight bits of the
      code a process exits with. */
  type ExitStatus = s: nat | s <= 255

  /** What the environment answers: whether `chdir` succeeds on the directory
      it is given (it always fails on NULL, whatever `cdOk` says), the number of
      entries `scandir` finds (None when it fails, with the system's reason
      `perror` appends), and the exit status of the one child `main` waits
      for. `attachPipe` runs `execvp` in the parent branch of its `fork`
      (sshell.c:40-51), so in a pipeline of several stages that child becomes
      the first stage, not the last; its status is still stored in the last
      slot. */
  datatype World = World(cdOk: bool, entries: Option<nat>, reason: string, status: ExitStatus)

  /** The standard-error text `main` writes for an outcome; only an ignored
      line writes nothing. */
  function Stderr(line: string, o: Outcome, w: World): (r: string)
    requires o.Execute? ==> 1 <= |o.cmds| <= PIPES_MAX
    ensures r == [] <==> o == Ignored
  {
    match o
    case Ignored => ""
    case Failed(f) => Message(f)
    case Exit => "Bye...\n" + CompletionLine(line, [0])
    case Pwd => CompletionLine(line, [0])
    case Cd(dir) =>
      if w.cdOk && dir.Some? then CompletionLine(line, [0])
      else "Error: cannot cd into directory\n" + CompletionLine(line, [1])
    case Sls =>
      (match w.entries
       case Some(n) => CompletionLine("sls", [n])
       case None => ErrorTag + "couldn't open the directory: " + w.reason + "\n" + CompletionLine("sls", [1]))
    case Execute(cmds) => CompletionLine(line, ExitCodes(|cmds|, w.status))
  }

  /** A rejected line prints its one message and nothing else, and the
      failure can be read back from it. */
  lemma FailedReport(line: string, f: Failure, w: World)
    ensures FailureOf(Stderr(line, Failed(f), w)) == Some(f)
    ensures ReadCompletion(Stderr(line, Failed(f), w), line) == None
  {
    var m := Message(f);
    assert m[0] == 'E' && Lead(line)[0] == '+';
  }

  /** An executed pipeline's completion line names the line and reports zero
      for every stage but the last, whose slot holds the waited-for status. */
  lemma ExecuteReport(line: string, cmds: seq<Command>, w: World)
    requires 1 <= |cmds| <= PIPES_MAX
    ensures var codes := ReadCompletion(Stderr(line, Execute(cmds), w), line);
      codes.Some? && |codes.value| == |cmds| && codes.value[|cmds| - 1] == w.status &&
      forall i :: 0 <= i < |cmds| - 1 ==> codes.value[i] == 0
  {
    CompletionRoundTrip(line, ExitCodes(|cmds|, w.status));
    ExitCodesShape(|cmds|, w.status);
  }

  /** A built-in other than `sls` reports on the whole line with one code:
      0, except 1 for a failed `cd`, which first prints its own error; `cd`
      without a directory always fails. */
  lemma BuiltinReport(line: string, o: Outcome, w: World)
    requires o.Exit? || o.Pwd? || o.Cd?
    ensures var code := if o.Cd? && !(w.cdOk && o.dir.Some?) then 1 else 0;
      var pre := if o.Exit? then "Bye...\n" else if code == 1 then "Error: cannot cd into directory\n" else "";
      Stderr(line, o, w) == pre + CompletionLine(line, [code]) &&
      ReadCompletion(CompletionLine(line, [code]), line) == Some([code])
  {
    CompletionRoundTrip(line, [if o.Cd? && !(w.cdOk && o.dir.Some?) then 1 else 0]);
  }

  /** `sls` reports on `sls`, not on the line: the number of entries it
      listed, or an error line carrying the system's reason followed by the
      code 1. */
  lemma SlsReport(line: string, w: World)
    ensures w.entries.Some? ==>
      ReadCompletion(Stderr(line, Sls, w), "sls") == Some([w.entries.value])
    ensures w.entries.None? ==>
      var t := Stderr(line, Sls, w); var c := CompletionLine("sls", [1]);
      |t| > |c| + |ErrorTag| && t[..|ErrorTag|] == ErrorTag &&
      t[|t| - |c|..] == c && ReadCompletion(c, "sls") == Some([1])
  {
    if w.entries.Some? {
      CompletionRoundTrip("sls", [w.entries.value]);
    } else {
      CompletionRoundTrip("sls", [1]);
      var c := CompletionLine("sls", [1]);
      Ends(ErrorTag, "couldn't open the directory: " + w.reason + "\n", c);
    }
  }

  /** Where the parts of `p + m + c` lie. */
  lemma Ends(p: string, m: string, c: string)
    ensures var t := p + m + c;
      |t| == |p| + |m| + |c| && t[..|p|] == p && t[|t| - |c|..] == c
  {
    var t := p + m + c;
    assert t[..|p|] == p;
    assert t[|t| - |c|..] == c;
  }
}
