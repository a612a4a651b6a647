/** The parse of one pipeline stage into a command: the output redirection,
    the argument array and the background mark, worked out over a writable
    copy of the stage text the way `parseCommandLine` does it with `strtok`,
    and next to it a reference parse stated on the text alone. */
module Parse {
  import opened Wrappers
  import opened CString
  import opened CBuffer

  /** Entries of a command's argument array; the entry after the last argument holds NULL. */
  const ARGS_MAX: nat := 17

  /** The characters that separate the words of a command. */
  const Blanks: string := " \n"

  /** One parsed stage. `args` are the first `numArgs` entries of the argument
      array, None standing for NULL; `openable` is false when the output file
      could not be opened while parsing. */
  datatype Command = Command(
    program: string,
    args: seq<Option<string>>,
    redirect: bool,
    append: bool,
    outputFile: Option<string>,
    openable: bool,
    background: bool)

  /** The `numArgs` field. */
  function NumArgs(c: Command): nat
  {
    |c.args|
  }

  /** A `>>` anywhere leaves two characters after the first `>`. */
  lemma MarkerRoom(s: string, at: nat)
    requires Find(s, ">") == Some(at)
    ensures Find(s, ">>").Some? ==> at + 2 <= |s|
  {
    if Find(s, ">>").Some? {
      var q := Find(s, ">>").value;
      assert s[q] == s[q..q + 2][0] == '>';
      assert s[q..q + 1] == [s[q]];
      assert OccursAt(s, ">", q);
    }
  }

  /** Where the output file name is looked for: two past the first `>` when a
      `>>` occurs anywhere in the stage, one past it otherwise. */
  function FileFrom(s: string, at: nat): (i: nat)
    requires Find(s, ">") == Some(at)
    ensures at < i <= |s|
  {
    MarkerRoom(s, at);
    if Find(s, ">>").Some? then at + 2 else at + 1
  }

  /** The state the redirection part of the parse leaves: the buffer, the two
      flags, the start of the text before the redirection (None for NULL), the
      start of the file name (None for NULL) and where `strtok` would resume. */
  datatype Redirection = Redirection(
    buf: string,
    redirect: bool,
    append: bool,
    prev: Option<nat>,
    file: Option<nat>,
    save: nat)

  /** The redirection part of the parse of stage `s`: without a `>` nothing is
      touched; otherwise the text before the first run of `>` is cut off with
      `strtok(s, ">")` and the file name is the next blank-separated token,
      looked for where `strtok` stopped, or two past the first `>` when the
      stage holds `>>`. */
  function RedirectScan(s: string): (r: Redirection)
    requires NoNul(s)
    ensures |r.buf| == |s| + 1 && Terminated(r.buf) && r.save <= |s|
    ensures r.prev.Some? ==> r.prev.value <= |s|
    ensures r.file.Some? ==> r.file.value <= |s|
    ensures r.redirect <==> '>' in s
    ensures r.append ==> r.redirect
  {
    FindChar(s, '>');
    var buf := s + [NUL];
    match Find(s, ">")
    case None => Redirection(buf, false, false, None, None, 0)
    case Some(at) =>
      var t1 := BufStrtok(buf, 0, ">");
      var append := Find(s, ">>").Some?;
      var t2 := BufStrtok(t1.buf, if append then FileFrom(s, at) else t1.save, Blanks);
      Redirection(t2.buf, true, append, t1.start, t2.start, t2.save)
  }

  /** Where the argument scan starts: the whole stage without a redirection,
      else the text before it, else (when that was NULL) wherever `strtok`
      stopped. */
  function ArgsFrom(rd: Redirection): nat
  {
    if !rd.redirect then 0
    else if rd.prev.Some? then rd.prev.value
    else rd.save
  }

  /** An entry of the argument array: the empty literal, a string in the
      buffer, or NULL. */
  datatype Slot = Empty | At(pos: nat) | Null

  /** Every entry that points into the buffer points before `n`. */
  predicate SlotsIn(slots: seq<Slot>, n: nat)
  {
    forall k :: 0 <= k < |slots| && slots[k].At? ==> slots[k].pos < n
  }

  /** The string an entry holds, None for NULL. */
  function SlotText(buf: string, sl: Slot): Option<string>
    requires sl.At? ==> sl.pos < |buf|
  {
    match sl
    case Empty => Some("")
    case At(p) => Some(StrAt(buf, p))
    case Null => None
  }

  /** The buffer and the argument entries after the scan. */
  datatype Args = Args(buf: string, slots: seq<Slot>)

  /** The argument scan: the first blank-separated token from `first` (the
      empty literal when there is none), then `strtok(NULL, " \n")` until it
      returns NULL, one entry per token. */
  function ArgScan(buf: string, first: nat): (r: Args)
    requires Terminated(buf) && first < |buf|
    ensures |r.buf| == |buf| && Terminated(r.buf)
    ensures |r.slots| > 0 && SlotsIn(r.slots, |buf|)
    ensures !r.slots[0].Null? && forall k :: 1 <= k < |r.slots| ==> r.slots[k].At?
  {
    var t := BufStrtok(buf, first, Blanks);
    var rest := BufTokens(t.buf, t.save, Blanks);
    var head := if t.start.Some? then At(t.start.value) else Empty;
    Args(rest.buf, [head] + seq(|rest.starts|, k requires 0 <= k < |rest.starts| => At(rest.starts[k])))
  }

  /** The buffer, the entries and the background flag after the `&` check. */
  datatype Stripped = Stripped(buf: string, slots: seq<Slot>, background: bool)

  /** The background check on the last entry: a last argument ending in `&`
      marks the stage as background; if the argument also starts with `&` the
      entry becomes NULL, otherwise its final `&` is overwritten with a
      terminator. An empty last entry is taken not to end in `&`. */
  function StripBackground(buf: string, slots: seq<Slot>): (r: Stripped)
    requires Terminated(buf) && |slots| > 0 && SlotsIn(slots, |buf|)
    ensures |r.buf| == |buf| && Terminated(r.buf)
    ensures |r.slots| == |slots| && SlotsIn(r.slots, |buf|)
  {
    var last := slots[|slots| - 1];
    if last.At? then
      var w := StrAt(buf, last.pos);
      if |w| > 0 && w[|w| - 1] == '&' then
        if w[0] == '&' then Stripped(buf, slots[|slots| - 1 := Null], true)
        else Stripped(buf[last.pos + |w| - 1 := NUL], slots, true)
      else Stripped(buf, slots, false)
    else Stripped(buf, slots, false)
  }

  /** The three phases of the parse of one stage. */
  datatype Walk = Walk(rd: Redirection, args: Args, strip: Stripped)

  function StageWalk(s: string): (w: Walk)
    requires NoNul(s)
    ensures |w.strip.buf| == |s| + 1 && Terminated(w.strip.buf)
    ensures |w.args.slots| > 0 && SlotsIn(w.args.slots, |s| + 1) && SlotsIn(w.strip.slots, |s| + 1)
    ensures |w.strip.slots| == |w.args.slots|
  {
    var rd := RedirectScan(s);
    var ar := ArgScan(rd.buf, ArgsFrom(rd));
    Walk(rd, ar, StripBackground(ar.buf, ar.slots))
  }

  /** The argument array of the stage fits, with room for the closing NULL. */
  predicate ArgsFit(s: string)
    requires NoNul(s)
  {
    |StageWalk(s).args.slots| < ARGS_MAX
  }

  /** The command name, argument strings and background flag, read off the
      final buffer: the command name is whatever the first entry pointed at
      before the background check. */
  datatype Argv = Argv(program: string, args: seq<Option<string>>, background: bool)

  /** The strings the entries hold, None for NULL. */
  function Texts(buf: string, slots: seq<Slot>): (r: seq<Option<string>>)
    requires SlotsIn(slots, |buf|)
    ensures |r| == |slots|
  {
    seq(|slots|, k requires 0 <= k < |slots| => SlotText(buf, slots[k]))
  }

  function ReadArgv(first: Slot, st: Stripped): (a: Argv)
    requires first.At? ==> first.pos < |st.buf|
    requires SlotsIn(st.slots, |st.buf|)
    ensures |a.args| == |st.slots|
  {
    Argv(if first.At? then StrAt(st.buf, first.pos) else "", Texts(st.buf, st.slots), st.background)
  }

  /** `parseCommandLine` on stage `s`; `canOpen` says which file names the
      open probe succeeds on. */
  function ParseStage(s: string, canOpen: string -> bool): (c: Command)
    requires NoNul(s) && ArgsFit(s)
    ensures c.redirect <==> '>' in s
    ensures c.append ==> c.redirect
    ensures 1 <= NumArgs(c) < ARGS_MAX
    ensures c.outputFile.Some? ==> c.redirect
    ensures !c.redirect ==> c.openable
  {
    var w := StageWalk(s);
    var a := ReadArgv(w.args.slots[0], w.strip);
    var rd := w.rd;
    Command(
      a.program, a.args, rd.redirect, rd.append,
      if rd.file.Some? then Some(StrAt(w.strip.buf, rd.file.value)) else None,
      !rd.redirect || (rd.file.Some? && canOpen(StrAt(rd.buf, rd.file.value))),
      a.background)
  }

  /* ---------------------------------------------------------------------- */
  /* The reference parse, stated on the text.                                */

  /** Each word as a present string. */
  function Somes(ws: seq<string>): (r: seq<Option<string>>)
    ensures |r| == |ws| && forall k :: 0 <= k < |ws| ==> r[k] == Some(ws[k])
  {
    seq(|ws|, k requires 0 <= k < |ws| => Some(ws[k]))
  }

  /** The command name, arguments and background flag the words of a stage
      make: no words give the empty name; a last word ending in `&` marks
      background and, if it also starts with `&`, becomes NULL, otherwise
      loses its final `&` (which also shortens the name when it is the only
      word). */
  function CleanArgv(words: seq<string>): Argv
  {
    if |words| == 0 then Argv("", [Some("")], false)
    else
      var n := |words|;
      var w := words[n - 1];
      if |w| > 0 && w[|w| - 1] == '&' then
        if w[0] == '&' then Argv(words[0], Somes(words[..n - 1]) + [None], true)
        else
          var cut := words[n - 1 := w[..|w| - 1]];
          Argv(cut[0], Somes(cut), true)
      else Argv(words[0], Somes(words), false)
  }

  /** The reference parse: the words are the blank-separated tokens before the
      first `>` (or of the whole stage), and the output file is the first
      token from `FileFrom`. */
  function CleanStage(s: string, canOpen: string -> bool): (c: Command)
  {
    match Find(s, ">")
    case None =>
      var a := CleanArgv(Tokens(s, Blanks));
      Command(a.program, a.args, false, false, None, true, a.background)
    case Some(at) =>
      var file := FirstTokenFrom(s, FileFrom(s, at), Blanks);
      var a := CleanArgv(Tokens(s[..at], Blanks));
      Command(a.program, a.args, true, Find(s, ">>").Some?, file,
              file.Some? && canOpen(file.value), a.background)
  }

  /* ---------------------------------------------------------------------- */
  /* The buffer parse agrees with the reference parse.                      */

  /** The argument entries a run of token starts gives: one per start, or the
      empty literal when there are none. */
  function SlotsOf(starts: seq<nat>): (r: seq<Slot>)
    ensures |r| > 0
  {
    if starts == [] then [Empty]
    else seq(|starts|, k requires 0 <= k < |starts| => At(starts[k]))
  }

  lemma SlotsOfIndex(starts: seq<nat>, k: nat)
    requires k < |starts|
    ensures |SlotsOf(starts)| == |starts| && SlotsOf(starts)[k] == At(starts[k])
  {
  }

  lemma SlotsOfCons(a: nat, starts: seq<nat>)
    ensures SlotsOf([a] + starts) ==
      [At(a)] + seq(|starts|, k requires 0 <= k < |starts| => At(starts[k]))
  {
    var l := SlotsOf([a] + starts);
    var r := [At(a)] + seq(|starts|, k requires 0 <= k < |starts| => At(starts[k]));
    forall k | 0 <= k < |r| ensures l[k] == r[k] {
      if k > 0 {
        assert ([a] + starts)[k] == starts[k - 1];
      }
    }
  }

  /** The argument scan is one run of `strtok` from `first`. */
  lemma ArgScanRun(buf: string, first: nat)
    requires Terminated(buf) && first < |buf|
    ensures ArgScan(buf, first) ==
      Args(BufTokens(buf, first, Blanks).buf, SlotsOf(BufTokens(buf, first, Blanks).starts))
  {
    var t := BufStrtok(buf, first, Blanks);
    var rest := BufTokens(t.buf, t.save, Blanks);
    if t.start.None? {
      BufTokensAtNul(buf, t.save, Blanks);
    } else {
      SlotsOfCons(t.start.value, rest.starts);
    }
  }

  /** The words `words` lie in `b` at `starts`, each non-empty. */
  predicate Laid(b: string, starts: seq<nat>, words: seq<string>)
  {
    Terminated(b) && |starts| == |words| &&
    forall k :: 0 <= k < |starts| ==> |words[k]| > 0 && ReadsBack(b, starts[k], words[k])
  }

  /** Every word but the last ends, terminator included, before the last one starts. */
  predicate Apart(starts: seq<nat>, words: seq<string>)
    requires |starts| == |words| > 0
  {
    forall k :: 0 <= k < |starts| - 1 ==> starts[k] + |words[k]| < starts[|starts| - 1]
  }

  /** The entries for words laid out at `starts` hold those words. */
  lemma LaidTexts(b: string, starts: seq<nat>, words: seq<string>)
    requires Laid(b, starts, words)
    ensures SlotsIn(SlotsOf(starts), |b|)
    ensures |starts| > 0 ==> Texts(b, SlotsOf(starts)) == Somes(words)
  {
    forall k | 0 <= k < |starts| ensures starts[k] < |b| && StrAt(b, starts[k]) == words[k] {
      assert ReadsBack(b, starts[k], words[k]);
    }
  }

  /** The last entry of words laid out at `starts` holds the last word. */
  lemma LaidLast(b: string, starts: seq<nat>, words: seq<string>)
    requires Laid(b, starts, words) && |starts| > 0
    ensures SlotsIn(SlotsOf(starts), |b|)
    ensures var n := |starts|;
      SlotsOf(starts)[n - 1] == At(starts[n - 1]) && starts[n - 1] < |b| &&
      StrAt(b, starts[n - 1]) == words[n - 1] && |words[n - 1]| > 0
  {
    LaidTexts(b, starts, words);
    assert ReadsBack(b, starts[|starts| - 1], words[|starts| - 1]);
  }

  /** Reading back words laid out at `starts` gives the first word as the
      command name and all the words as arguments. */
  lemma ReadLaid(b: string, starts: seq<nat>, words: seq<string>, bg: bool)
    requires Laid(b, starts, words) && |starts| > 0
    ensures SlotsIn(SlotsOf(starts), |b|)
    ensures ReadArgv(SlotsOf(starts)[0], Stripped(b, SlotsOf(starts), bg)) == Argv(words[0], Somes(words), bg)
  {
    LaidTexts(b, starts, words);
    assert ReadsBack(b, starts[0], words[0]);
  }

  /** Setting an entry to NULL sets its string to None. */
  lemma TextsNull(b: string, slots: seq<Slot>, m: nat)
    requires SlotsIn(slots, |b|) && m < |slots|
    ensures SlotsIn(slots[m := Null], |b|)
    ensures Texts(b, slots[m := Null]) == Texts(b, slots)[m := None]
  {
  }

  lemma SomesDropLast(words: seq<string>)
    requires |words| > 0
    ensures Somes(words)[|words| - 1 := None] == Somes(words[..|words| - 1]) + [None]
  {
  }

  /** What the background check does, given the last entry's string `w` at `p`. */
  lemma StripAt(b: string, slots: seq<Slot>, p: nat, w: string)
    requires Terminated(b) && |slots| > 0 && SlotsIn(slots, |b|)
    requires slots[|slots| - 1] == At(p) && p < |b| && StrAt(b, p) == w && |w| > 0
    ensures w[|w| - 1] != '&' ==> StripBackground(b, slots) == Stripped(b, slots, false)
    ensures w[|w| - 1] == '&' && w[0] == '&' ==>
      StripBackground(b, slots) == Stripped(b, slots[|slots| - 1 := Null], true)
    ensures w[|w| - 1] == '&' && w[0] != '&' ==>
      StripBackground(b, slots) == Stripped(b[p + |w| - 1 := NUL], slots, true)
  {
  }

  lemma CleanKeep(words: seq<string>)
    requires |words| > 0 && var w := words[|words| - 1]; |w| > 0 && w[|w| - 1] != '&'
    ensures CleanArgv(words) == Argv(words[0], Somes(words), false)
  {
  }

  lemma CleanNull(words: seq<string>)
    requires |words| > 0 && var w := words[|words| - 1]; |w| > 0 && w[|w| - 1] == '&' && w[0] == '&'
    ensures CleanArgv(words) == Argv(words[0], Somes(words[..|words| - 1]) + [None], true)
  {
  }

  /** The words after the final `&` of the last one is cut off. */
  function CutLast(words: seq<string>): (r: seq<string>)
    requires |words| > 0 && |words[|words| - 1]| > 0
    ensures |r| == |words|
  {
    var w := words[|words| - 1];
    words[|words| - 1 := w[..|w| - 1]]
  }

  lemma CleanCut(words: seq<string>)
    requires |words| > 0 && var w := words[|words| - 1]; |w| > 0 && w[|w| - 1] == '&' && w[0] != '&'
    ensures CleanArgv(words) == Argv(CutLast(words)[0], Somes(CutLast(words)), true)
  {
  }

  lemma StripKeep(b: string, starts: seq<nat>, words: seq<string>)
    requires |starts| > 0 && Laid(b, starts, words)
    requires var w := words[|words| - 1]; w[|w| - 1] != '&'
    ensures SlotsIn(SlotsOf(starts), |b|)
    ensures StripBackground(b, SlotsOf(starts)) == Stripped(b, SlotsOf(starts), false)
    ensures ReadArgv(SlotsOf(starts)[0], StripBackground(b, SlotsOf(starts))) == CleanArgv(words)
  {
    var n := |starts|;
    LaidLast(b, starts, words);
    StripAt(b, SlotsOf(starts), starts[n - 1], words[n - 1]);
    ReadLaid(b, starts, words, false);
    CleanKeep(words);
  }

  lemma StripNull(b: string, starts: seq<nat>, words: seq<string>)
    requires |starts| > 0 && Laid(b, starts, words)
    requires var w := words[|words| - 1]; w[|w| - 1] == '&' && w[0] == '&'
    ensures SlotsIn(SlotsOf(starts), |b|)
    ensures StripBackground(b, SlotsOf(starts)) ==
      Stripped(b, SlotsOf(starts)[|starts| - 1 := Null], true)
    ensures ReadArgv(SlotsOf(starts)[0], StripBackground(b, SlotsOf(starts))) == CleanArgv(words)
  {
    var n := |starts|;
    LaidLast(b, starts, words);
    StripAt(b, SlotsOf(starts), starts[n - 1], words[n - 1]);
    ReadLaid(b, starts, words, true);
    TextsNull(b, SlotsOf(starts), n - 1);
    SomesDropLast(words);
    CleanNull(words);
  }

  /** Cutting the last word in the buffer lays out the cut words. */
  lemma CutLaid(b: string, starts: seq<nat>, words: seq<string>)
    requires |starts| > 0 && Laid(b, starts, words) && Apart(starts, words)
    requires var w := words[|words| - 1]; w[|w| - 1] == '&' && w[0] != '&'
    ensures var p, w := starts[|starts| - 1], words[|words| - 1];
      p + |w| - 1 < |b| && Laid(b[p + |w| - 1 := NUL], starts, CutLast(words))
  {
    var n := |starts|;
    var p, w := starts[n - 1], words[n - 1];
    assert ReadsBack(b, p, w);
    var b' := b[p + |w| - 1 := NUL];
    forall k | 0 <= k < n
      ensures |CutLast(words)[k]| > 0 && ReadsBack(b', starts[k], CutLast(words)[k])
    {
      assert ReadsBack(b, starts[k], words[k]);
      if k < n - 1 {
        StrAtFrame(b, b', starts[k]);
      } else {
        StrAtCut(b, p, p + |w| - 1);
      }
    }
  }

  lemma StripCut(b: string, starts: seq<nat>, words: seq<string>)
    requires |starts| > 0 && Laid(b, starts, words) && Apart(starts, words)
    requires var w := words[|words| - 1]; w[|w| - 1] == '&' && w[0] != '&'
    ensures SlotsIn(SlotsOf(starts), |b|)
    ensures var p, w := starts[|starts| - 1], words[|words| - 1];
      p + |w| - 1 < |b| &&
      StripBackground(b, SlotsOf(starts)) == Stripped(b[p + |w| - 1 := NUL], SlotsOf(starts), true)
    ensures ReadArgv(SlotsOf(starts)[0], StripBackground(b, SlotsOf(starts))) == CleanArgv(words)
  {
    var p, w := starts[|starts| - 1], words[|words| - 1];
    LaidLast(b, starts, words);
    StripAt(b, SlotsOf(starts), p, w);
    CutLaid(b, starts, words);
    ReadLaid(b[p + |w| - 1 := NUL], starts, CutLast(words), true);
    CleanCut(words);
  }

  /** The background check over a buffer holding the words `words` at
      `starts` gives the reference argument list, and writes only inside the
      last word. */
  lemma StripMatches(b: string, starts: seq<nat>, words: seq<string>)
    requires Laid(b, starts, words) && (|starts| > 0 ==> Apart(starts, words))
    ensures SlotsIn(SlotsOf(starts), |b|)
    ensures ReadArgv(SlotsOf(starts)[0], StripBackground(b, SlotsOf(starts))) == CleanArgv(words)
    ensures |starts| == 0 ==> StripBackground(b, SlotsOf(starts)).buf == b
    ensures |starts| > 0 ==>
      Unchanged(b, StripBackground(b, SlotsOf(starts)).buf,
                starts[|starts| - 1], starts[|starts| - 1] + |words[|words| - 1]|)
  {
    if |starts| > 0 {
      var w := words[|words| - 1];
      LaidLast(b, starts, words);
      if w[|w| - 1] != '&' {
        StripKeep(b, starts, words);
      } else if w[0] == '&' {
        StripNull(b, starts, words);
      } else {
        StripCut(b, starts, words);
      }
    }
  }

  /** A token is the non-empty text its span marks. */
  lemma TokenWord(t: string, k: nat)
    requires k < |TokenSpans(t, Blanks)|
    ensures var x := TokenSpans(t, Blanks)[k];
      x.0 < x.1 <= |t| && Tokens(t, Blanks)[k] == Segment(t, x) && |Tokens(t, Blanks)[k]| == x.1 - x.0
  {
    TokenSpanFacts(t, 0, Blanks, k);
  }

  /** The tokens of `t` lie, non-empty, where a run over a buffer holding `t`
      found them. */
  lemma TokensLaid(r: Run, t: string)
    requires Terminated(r.buf) && Found(r, t, TokenSpans(t, Blanks))
    ensures Laid(r.buf, r.starts, Tokens(t, Blanks))
  {
    var sp := TokenSpans(t, Blanks);
    forall k | 0 <= k < |sp|
      ensures |Tokens(t, Blanks)[k]| > 0 && ReadsBack(r.buf, r.starts[k], Tokens(t, Blanks)[k])
    {
      TokenWord(t, k);
    }
  }

  /** ... and apart, the last one ending inside `t`. */
  lemma TokensApart(starts: seq<nat>, t: string)
    requires |starts| == |TokenSpans(t, Blanks)| > 0
    requires forall k :: 0 <= k < |starts| ==> starts[k] == TokenSpans(t, Blanks)[k].0
    ensures Apart(starts, Tokens(t, Blanks))
    ensures starts[|starts| - 1] + |Tokens(t, Blanks)[|starts| - 1]| <= |t|
  {
    var n := |starts|;
    TokenWord(t, n - 1);
    forall k | 0 <= k < n - 1 ensures starts[k] + |Tokens(t, Blanks)[k]| < starts[n - 1] {
      TokenWord(t, k);
      TokenSpansOrdered(t, 0, Blanks, k, n - 1);
    }
  }

  /** A run of `strtok` over a buffer holding `t` lays out `t`'s tokens as
      the background check needs them, writing nothing outside `t`. */
  lemma HeadRun(buf: string, t: string)
    requires Terminated(buf) && Holds(buf, t, 0)
    ensures var run := BufTokens(buf, 0, Blanks); var words := Tokens(t, Blanks);
      Laid(run.buf, run.starts, words) && Unchanged(buf, run.buf, 0, |t|) &&
      (|words| > 0 ==> Apart(run.starts, words) && run.starts[|words| - 1] + |words[|words| - 1]| <= |t|)
  {
    var run := BufTokens(buf, 0, Blanks);
    BufTokensHolds(buf, t, 0, Blanks);
    TokensLaid(run, t);
    if |run.starts| > 0 {
      TokensApart(run.starts, t);
    }
  }

  /** The argument scan and background check over a buffer holding `t` from
      its start give the reference argument list of `t`'s words, and write
      nothing outside `t`. */
  lemma HeadArgv(buf: string, t: string)
    requires Terminated(buf) && Holds(buf, t, 0)
    ensures var ar := ArgScan(buf, 0); var st := StripBackground(ar.buf, ar.slots);
      ReadArgv(ar.slots[0], st) == CleanArgv(Tokens(t, Blanks)) && Unchanged(buf, st.buf, 0, |t|)
  {
    ArgScanRun(buf, 0);
    var run := BufTokens(buf, 0, Blanks);
    HeadRun(buf, t);
    StripMatches(run.buf, run.starts, Tokens(t, Blanks));
  }

  /** A stage without `>` is parsed as the reference parse says. */
  lemma PlainStage(s: string, canOpen: string -> bool)
    requires NoNul(s) && ArgsFit(s) && '>' !in s
    ensures ParseStage(s, canOpen) == CleanStage(s, canOpen)
  {
    FindChar(s, '>');
    var buf := s + [NUL];
    assert Holds(buf, s, 0);
    HeadArgv(buf, s);
  }

  /** For a stage that does not start with `>`, the redirection part cuts the
      stage at its first `>` and finds the file name the reference parse finds. */
  lemma RedirectSplit(s: string, at: nat)
    requires NoNul(s) && Find(s, ">") == Some(at) && s[0] != '>'
    ensures var rd := RedirectScan(s);
      rd.prev == Some(0) && Terminated(rd.buf) && Holds(rd.buf, s[..at], 0) &&
      match TokenAt(s, FileFrom(s, at), Blanks)
      case None => rd.file.None?
      case Some((a, e)) => rd.file == Some(a) && at < a && ReadsBack(rd.buf, a, s[a..e])
  {
    FindChar(s, '>');
    ScanToFirst(s, '>', at);
    var buf := s + [NUL];
    assert Holds(buf, s, 0);
    assert TokenAt(s, 0, ">") == Some((0, at));
    BufStrtokCut(buf, s, 0, ">", 0, at);
    var b1 := buf[at := NUL];
    var from := FileFrom(s, at);
    assert Holds(b1, s, from);
    BufStrtokHolds(b1, s, from, Blanks);
    match TokenAt(s, from, Blanks) {
      case None =>
      case Some((a, e)) =>
        if e < |s| {
          StrAtSlice(b1[e := NUL], s, a, e);
        } else {
          StrAtSlice(b1, s, a, e);
        }
    }
  }

  /** A stage with `>` that does not start with one is parsed as the
      reference parse says. */
  lemma RedirectStage(s: string, canOpen: string -> bool)
    requires NoNul(s) && ArgsFit(s) && '>' in s && s[0] != '>'
    ensures ParseStage(s, canOpen) == CleanStage(s, canOpen)
  {
    FindChar(s, '>');
    var at := Find(s, ">").value;
    RedirectSplit(s, at);
    var rd := RedirectScan(s);
    HeadArgv(rd.buf, s[..at]);
    var ar := ArgScan(rd.buf, 0);
    var st := StripBackground(ar.buf, ar.slots);
    match TokenAt(s, FileFrom(s, at), Blanks) {
      case None =>
      case Some((a, e)) =>
        StrAtFrame(rd.buf, st.buf, a);
    }
  }

  /** `parseCommandLine`, with all its writes into the stage text, computes
      the reference parse for every stage that does not start with `>`. */
  lemma ParseMatchesClean(s: string, canOpen: string -> bool)
    requires NoNul(s) && ArgsFit(s) && (s == [] || s[0] != '>')
    ensures ParseStage(s, canOpen) == CleanStage(s, canOpen)
  {
    if '>' in s {
      RedirectStage(s, canOpen);
    } else {
      PlainStage(s, canOpen);
    }
  }
}
