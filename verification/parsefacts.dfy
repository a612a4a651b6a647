/** What the parse of one stage promises, stated on the stage text: where the
    words come from, how many argument entries there are, when the stage runs
    in the background, and where the output file name comes from. */
module ParseFacts {
  import opened Wrappers
  import opened CString
  import opened CBuffer
  import opened Parse

  /** The command text of a stage: everything before its first `>`. */
  function Head(s: string): (h: string)
    ensures |h| <= |s| && h == s[..|h|]
    ensures '>' !in h
  {
    FindChar(s, '>');
    match Find(s, ">")
    case None => s
    case Some(at) => s[..at]
  }

  /** The words of the command text. */
  function HeadWords(s: string): seq<string>
  {
    Tokens(Head(s), Blanks)
  }

  /** The number of argument entries the words of a stage fill: one per word,
      and one (the empty name) when there is none. */
  function Entries(words: seq<string>): nat
  {
    if |words| == 0 then 1 else |words|
  }

  /** How many entries the argument scan makes over a buffer holding `t`. */
  lemma ScanEntries(buf: string, t: string)
    requires Terminated(buf) && Holds(buf, t, 0)
    ensures |ArgScan(buf, 0).slots| == Entries(Tokens(t, Blanks))
  {
    ArgScanRun(buf, 0);
    BufTokensHolds(buf, t, 0, Blanks);
  }

  /** The argument array of a stage that does not start with `>` overflows
      exactly when its command text has 17 words or more. */
  lemma FitIff(s: string)
    requires NoNul(s) && (s == [] || s[0] != '>')
    ensures ArgsFit(s) <==> |HeadWords(s)| < ARGS_MAX
  {
    FindChar(s, '>');
    if '>' in s {
      var at := Find(s, ">").value;
      RedirectSplit(s, at);
      ScanEntries(RedirectScan(s).buf, s[..at]);
    } else {
      var buf := s + [NUL];
      assert Holds(buf, s, 0);
      ScanEntries(buf, s);
    }
  }

  /** The last argument as the background check leaves it: unchanged, NULL
      when it starts with `&`, or without its final `&`. */
  function LastEntry(w: string): Option<string>
  {
    if |w| > 0 && w[|w| - 1] == '&' then
      if w[0] == '&' then None else Some(w[..|w| - 1])
    else Some(w)
  }

  /** The shape of the reference argument list: one entry per word (the empty
      name for no words), every word but the last unchanged, the last one as
      `LastEntry` leaves it, background exactly when the last word ends in
      `&`, and the command name the first entry, unless that entry is NULL. */
  lemma CleanArgvShape(words: seq<string>)
    requires Words(words, Blanks)
    ensures var a := CleanArgv(words);
      |a.args| == Entries(words) &&
      (|words| == 0 ==> a.program == "" && a.args == [Some("")] && !a.background) &&
      (|words| > 0 ==>
        var n := |words|;
        var w := words[n - 1];
        (a.background <==> w[|w| - 1] == '&') &&
        (forall k :: 0 <= k < n - 1 ==> a.args[k] == Some(words[k])) &&
        a.args[n - 1] == LastEntry(w) &&
        (a.args[0] == Some(a.program) || (n == 1 && a.args[0] == None)))
  {
    if |words| > 0 {
      var n := |words|;
      var w := words[n - 1];
      assert |w| > 0;
      if w[|w| - 1] != '&' {
        CleanKeep(words);
      } else if w[0] == '&' {
        CleanNull(words);
      } else {
        CleanCut(words);
      }
    }
  }

  /** Every argument the reference parse keeps is a non-empty word without
      blanks, unless the stage has no words at all. */
  lemma CleanArgsAreWords(words: seq<string>)
    requires Words(words, Blanks) && |words| > 0
    ensures var a := CleanArgv(words);
      forall k :: 0 <= k < |a.args| && a.args[k].Some? ==>
        |a.args[k].value| > 0 && DelimFree(a.args[k].value, Blanks)
  {
    CleanArgvShape(words);
    var a := CleanArgv(words);
    var w := words[|words| - 1];
    assert |w| > 0 && DelimFree(w, Blanks);
    if |w| > 0 && w[|w| - 1] == '&' && w[0] != '&' {
      assert |w| > 1;
      assert forall m :: 0 <= m < |w| - 1 ==> w[..|w| - 1][m] == w[m];
    }
  }

  /** The reference command name is empty exactly when there are no words. */
  lemma CleanProgramEmpty(words: seq<string>)
    requires Words(words, Blanks)
    ensures CleanArgv(words).program == "" <==> words == []
  {
    if |words| > 0 {
      var n := |words|;
      var w := words[n - 1];
      assert |words[0]| > 0 && |w| > 0;
      if |w| > 0 && w[|w| - 1] == '&' && w[0] != '&' {
        CleanCut(words);
        if n == 1 {
          assert |w| > 1;
          assert |CutLast(words)[0]| == |w| - 1;
        } else {
          assert CutLast(words)[0] == words[0];
        }
      }
    }
  }

  /** The command name, arguments and background flag of a stage that does
      not start with `>` are those of the words of its command text. */
  lemma ParseWords(s: string, canOpen: string -> bool)
    requires NoNul(s) && ArgsFit(s) && (s == [] || s[0] != '>')
    ensures var c := ParseStage(s, canOpen); var a := CleanArgv(HeadWords(s));
      c.program == a.program && c.args == a.args && c.background == a.background
  {
    ParseMatchesClean(s, canOpen);
  }

  /** For a stage that does not start with `>`, the output file is the first
      blank-separated token one past the first `>`, or two past it when the
      stage holds `>>` anywhere; the open probe is made on that name. */
  lemma ParseFile(s: string, at: nat, canOpen: string -> bool)
    requires NoNul(s) && ArgsFit(s) && Find(s, ">") == Some(at) && s[0] != '>'
    ensures var c := ParseStage(s, canOpen);
      c.outputFile == FirstTokenFrom(s, FileFrom(s, at), Blanks) &&
      (c.openable <==> c.outputFile.Some? && canOpen(c.outputFile.value))
  {
    ParseMatchesClean(s, canOpen);
  }

  lemma DoubleMarkAt(s: string, j: int)
    requires 0 <= j && j + 1 < |s|
    ensures OccursAt(s, ">>", j) <==> s[j] == '>' && s[j + 1] == '>'
  {
    if s[j] == '>' && s[j + 1] == '>' {
      assert s[j..j + 2] == ">>";
    }
    if OccursAt(s, ">>", j) {
      assert s[j] == s[j..j + 2][0] && s[j + 1] == s[j..j + 2][1];
    }
  }

  /** Append mode is set exactly when two `>` stand next to each other
      anywhere in the stage, whatever comes before them. */
  lemma AppendIff(s: string, canOpen: string -> bool)
    requires NoNul(s) && ArgsFit(s)
    ensures ParseStage(s, canOpen).append <==>
      exists j :: 0 <= j && j + 1 < |s| && s[j] == '>' && s[j + 1] == '>'
  {
    FindChar(s, '>');
    var r := Find(s, ">>");
    if r.Some? {
      DoubleMarkAt(s, r.value);
      assert s[r.value] in s;
    }
    if exists j :: 0 <= j && j + 1 < |s| && s[j] == '>' && s[j + 1] == '>' {
      var j :| 0 <= j && j + 1 < |s| && s[j] == '>' && s[j + 1] == '>';
      DoubleMarkAt(s, j);
      assert s[j] in s;
    }
  }

  /** `numArgs` is the number of words of the command text (one for none),
      whether or not the background check drops or shortens the last one. */
  lemma ArgCount(s: string, canOpen: string -> bool)
    requires NoNul(s) && ArgsFit(s) && (s == [] || s[0] != '>')
    ensures NumArgs(ParseStage(s, canOpen)) == Entries(HeadWords(s))
  {
    ParseWords(s, canOpen);
    TokensShape(Head(s), Blanks);
    CleanArgvShape(HeadWords(s));
  }

  /** A stage without `>` parses to the reference arguments of its words. */
  lemma NoMarkerStage(s: string, canOpen: string -> bool)
    requires NoNul(s) && ArgsFit(s) && '>' !in s
    ensures var a := CleanArgv(Tokens(s, Blanks));
      ParseStage(s, canOpen) == Command(a.program, a.args, false, false, None, true, a.background)
  {
    FindChar(s, '>');
    if s != [] {
      assert s[0] in s;
    }
    ParseMatchesClean(s, canOpen);
  }

  lemma LsWords(s: string)
    requires s == "ls &&"
    ensures Tokens(s, Blanks) == ["ls", "&&"]
  {
    var t := "ls &&";
    assert Scan(t, 0, Blanks) == 2;
    TokenSpansAtWord(t, 0, Blanks);
    assert Scan(t, 3, Blanks) == 5;
    TokenSpansAtWord(t, 3, Blanks);
    assert TokenSpans(t, Blanks) == [(0, 2), (3, 5)];
    assert Segment(t, (0, 2)) == "ls" && Segment(t, (3, 5)) == "&&";
  }

  lemma LsFits(s: string)
    requires s == "ls &&"
    ensures NoNul(s) && '>' !in s && ArgsFit(s) && Tokens(s, Blanks) == ["ls", "&&"]
  {
    FindChar(s, '>');
    assert Head(s) == s;
    LsWords(s);
    FitIff(s);
  }

  /** A last word `&&` is dropped from the arguments but still counted. */
  lemma DoubleAmpersand(s: string, canOpen: string -> bool)
    requires s == "ls &&"
    ensures NoNul(s) && ArgsFit(s)
    ensures ParseStage(s, canOpen) == Command("ls", [Some("ls"), None], false, false, None, true, true)
  {
    LsFits(s);
    NoMarkerStage(s, canOpen);
    CleanNull(["ls", "&&"]);
    assert Somes(["ls"]) == [Some("ls")];
  }
}
