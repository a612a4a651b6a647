/** The two whole-line checks `main` makes before running a pipeline: a `>`
    followed later by a `|`, and a command name that first occurs after a
    `>` or a `|`. The addresses `strstr` returns are modelled as positions,
    NULL as None. */
module Checks {
  import opened Wrappers
  import opened CString

  /** A one-character needle occurs exactly where that character is. */
  lemma OccursChar(s: string, c: char, j: int)
    ensures OccursAt(s, [c], j) <==> 0 <= j < |s| && s[j] == c
  {
    if 0 <= j < |s| {
      assert s[j..j + 1] == [s[j]];
    }
  }

  /** `strstr(command, ">")` and then `strstr` for `|` from that position. */
  function CheckRedirectMislocation(command: string): (r: bool)
    ensures r ==> '>' in command && '|' in command
  {
    match Find(command, ">")
    case None => false
    case Some(at) =>
      OccursChar(command, '>', at);
      var pipe := FindFrom(command, "|", at);
      if pipe.Some? then OccursChar(command, '|', pipe.value); true else false
  }

  /** The check fires exactly when some `>` is followed, anywhere later, by
      a `|`; a `|` that only comes before every `>` is accepted. */
  lemma MislocationIff(command: string)
    ensures CheckRedirectMislocation(command) <==>
      exists i, j :: 0 <= i < j < |command| && command[i] == '>' && command[j] == '|'
  {
    FindChar(command, '>');
    match Find(command, ">")
    case None =>
    case Some(at) =>
      var r := FindFrom(command, "|", at);
      if r.Some? {
        OccursChar(command, '|', r.value);
        assert command[at] == '>' && command[r.value] == '|';
      } else {
        forall i, j | 0 <= i < j < |command| && command[i] == '>' ensures command[j] != '|' {
          OccursChar(command, '|', j);
        }
      }
  }

  /** Whether `strstr(command, keyword)` lies beyond the first occurrence of
      `mark`; a keyword that does not occur (NULL) never lies beyond it. */
  function After(command: string, keyword: string, mark: string): (r: bool)
    ensures r ==> Find(command, keyword).Some? && Find(command, keyword).value > 0
  {
    match Find(command, mark)
    case None => false
    case Some(m) => Find(command, keyword).Some? && Find(command, keyword).value > m
  }

  /** `checkCommandValidity`: the keyword first occurs after the first `>`
      or after the first `|`; so a keyword at the very start never fires. */
  function CheckCommandValidity(command: string, keyword: string): (r: bool)
    ensures r ==> Find(command, keyword).Some? && Find(command, keyword).value > 0
  {
    After(command, keyword, ">") || After(command, keyword, "|")
  }

  lemma AfterIff(command: string, keyword: string, c: char)
    ensures After(command, keyword, [c]) <==>
      Find(command, keyword).Some? && exists m :: 0 <= m < Find(command, keyword).value && command[m] == c
  {
    FindChar(command, c);
    var k := Find(command, keyword);
    if k.Some? && After(command, keyword, [c]) {
      assert command[Find(command, [c]).value] == c;
    }
    if k.Some? && (exists m :: 0 <= m < k.value && command[m] == c) {
      var m :| 0 <= m < k.value && command[m] == c;
      assert command[m] in command;
    }
  }

  /** The check fires exactly when the keyword occurs and some `>` or `|`
      comes before its first occurrence; so never on a line without either. */
  lemma CommandValidityIff(command: string, keyword: string)
    ensures CheckCommandValidity(command, keyword) <==>
      Find(command, keyword).Some? &&
      exists m :: 0 <= m < Find(command, keyword).value && command[m] in ">|"
    ensures '>' !in command && '|' !in command ==> !CheckCommandValidity(command, keyword)
  {
    AfterIff(command, keyword, '>');
    AfterIff(command, keyword, '|');
    if Find(command, keyword).Some? {
      var q := Find(command, keyword).value;
      if exists m :: 0 <= m < q && command[m] in ">|" {
        var m :| 0 <= m < q && command[m] in ">|";
        assert command[m] == '>' || command[m] == '|';
      }
    }
  }

  /** The empty keyword occurs at the start, so it never fires. */
  lemma EmptyKeywordValid(command: string)
    ensures !CheckCommandValidity(command, "")
  {
    assert OccursAt(command, "", 0);
  }
}
