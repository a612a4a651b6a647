/** Pure models of the C string routines the shell relies on: `strstr`, `strspn`,
    `strcspn` and `strtok` over immutable strings. */
module CString {
  import opened Wrappers

  /** True when `needle` occurs in `hay` starting at index `i`. */
  predicate OccursAt(hay: string, needle: string, i: int)
  {
    0 <= i && i + |needle| <= |hay| && hay[i..i + |needle|] == needle
  }

  /** `strstr` from index `i` on. */
  function FindFrom(hay: string, needle: string, i: nat): (r: Option<nat>)
    decreases |hay| - i
    ensures r.Some? ==> i <= r.value && OccursAt(hay, needle, r.value)
    ensures r.Some? ==> forall j :: i <= j < r.value ==> !OccursAt(hay, needle, j)
    ensures r.None? ==> forall j :: i <= j ==> !OccursAt(hay, needle, j)
  {
    if i + |needle| > |hay| then None
    else if hay[i..i + |needle|] == needle then Some(i)
    else FindFrom(hay, needle, i + 1)
  }

  /** `strstr`: the index of the first occurrence of `needle` in `hay`, or None
      (NULL). An empty needle is found at index 0. */
  function Find(hay: string, needle: string): (r: Option<nat>)
    ensures r.Some? ==> OccursAt(hay, needle, r.value)
    ensures r.Some? ==> forall j :: 0 <= j < r.value ==> !OccursAt(hay, needle, j)
    ensures r.None? ==> forall j :: !OccursAt(hay, needle, j)
  {
    FindFrom(hay, needle, 0)
  }

  /** `i` is the index of the first `c` in `s`. */
  predicate FirstAt(s: string, c: char, i: int)
  {
    0 <= i < |s| && s[i] == c && forall m :: 0 <= m < i ==> s[m] != c
  }

  /** Searching for a one-character needle finds exactly the first occurrence of
      that character. */
  lemma FindChar(s: string, c: char)
    ensures Find(s, [c]).Some? <==> c in s
    ensures Find(s, [c]).Some? ==> FirstAt(s, c, Find(s, [c]).value)
  {
    var r := Find(s, [c]);
    if c in s {
      var i :| 0 <= i < |s| && s[i] == c;
      assert s[i..i + 1] == [c];
      assert OccursAt(s, [c], i);
    }
    if r.Some? {
      var k := r.value;
      assert s[k..k + 1] == [c];
      assert s[k] == s[k..k + 1][0];
      forall m | 0 <= m < k ensures s[m] != c {
        assert !OccursAt(s, [c], m);
        assert s[m..m + 1] == [s[m]];
      }
    }
  }

  /** Every character of `s` is one of the delimiters `d`. */
  predicate AllDelims(s: string, d: string)
  {
    forall i :: 0 <= i < |s| ==> s[i] in d
  }

  /** Scanning from the start for one character stops at its first occurrence. */
  lemma ScanToFirst(s: string, c: char, at: nat)
    requires FirstAt(s, c, at)
    ensures Scan(s, 0, [c]) == at
  {
    ScanStops(s, 0, [c], at);
  }

  /** `strspn` from position `i`: the first position at or after `i` that does
      not hold a delimiter, or the end of `s`. */
  function Skip(s: string, i: nat, d: string): (j: nat)
    requires i <= |s|
    decreases |s| - i
    ensures i <= j <= |s|
    ensures j < |s| ==> s[j] !in d
  {
    if i == |s| || s[i] !in d then i else Skip(s, i + 1, d)
  }

  /** `strcspn` from position `i`: the first position at or after `i` that holds
      a delimiter, or the end of `s`. */
  function Scan(s: string, i: nat, d: string): (j: nat)
    requires i <= |s|
    decreases |s| - i
    ensures i <= j <= |s|
    ensures j < |s| ==> s[j] in d
  {
    if i == |s| || s[i] in d then i else Scan(s, i + 1, d)
  }

  /** Everything `Skip` passes over is a delimiter, so its result is the first
      non-delimiter. */
  lemma {:induction false} SkipAll(s: string, i: nat, d: string)
    requires i <= |s|
    decreases |s| - i
    ensures forall j :: i <= j < Skip(s, i, d) ==> s[j] in d
  {
    if i < |s| && s[i] in d {
      SkipAll(s, i + 1, d);
    }
  }

  /** Nothing `Scan` passes over is a delimiter, so its result is the first
      delimiter. */
  lemma {:induction false} ScanAll(s: string, i: nat, d: string)
    requires i <= |s|
    decreases |s| - i
    ensures forall j :: i <= j < Scan(s, i, d) ==> s[j] !in d
  {
    if i < |s| && s[i] !in d {
      ScanAll(s, i + 1, d);
    }
  }

  /** `Skip` stops no later than any non-delimiter at or after `i`. */
  lemma {:induction false} SkipStops(s: string, i: nat, d: string, k: nat)
    requires i <= k < |s| && s[k] !in d
    decreases k - i
    ensures Skip(s, i, d) <= k
  {
    if s[i] in d {
      SkipStops(s, i + 1, d, k);
    }
  }

  /** `Scan` stops no later than any delimiter at or after `i`. */
  lemma {:induction false} ScanStops(s: string, i: nat, d: string, k: nat)
    requires i <= k < |s| && s[k] in d
    decreases k - i
    ensures Scan(s, i, d) <= k
  {
    if s[i] !in d {
      ScanStops(s, i + 1, d, k);
    }
  }

  /** The bounds `[a, e)` of the token a `strtok` call from position `i` returns:
      leading delimiters are skipped and the token runs to the next delimiter or
      to the end. None (NULL) when only delimiters remain. */
  function TokenAt(s: string, i: nat, d: string): (r: Option<(nat, nat)>)
    requires i <= |s|
    ensures r.Some? ==> i <= r.value.0 < r.value.1 <= |s|
    ensures r.Some? && r.value.1 < |s| ==> s[r.value.1] in d
  {
    var a := Skip(s, i, d);
    if a == |s| then None else Some((a, Scan(s, a, d)))
  }

  /** `strtok` finds nothing exactly when only delimiters remain; otherwise the
      token is preceded by delimiters only and holds none itself. */
  lemma TokenAtSpec(s: string, i: nat, d: string)
    requires i <= |s|
    ensures TokenAt(s, i, d).None? <==> forall j :: i <= j < |s| ==> s[j] in d
    ensures TokenAt(s, i, d).Some? ==> forall j :: i <= j < TokenAt(s, i, d).value.0 ==> s[j] in d
    ensures TokenAt(s, i, d).Some? ==>
      forall j :: TokenAt(s, i, d).value.0 <= j < TokenAt(s, i, d).value.1 ==> s[j] !in d
  {
    SkipAll(s, i, d);
    var a := Skip(s, i, d);
    if a < |s| {
      ScanAll(s, a, d);
    }
  }

  /** Every span `(a, e)` of `sp` lies in `[lo, hi]`: `lo <= a <= e <= hi`. */
  predicate Within(sp: seq<(nat, nat)>, lo: nat, hi: nat)
  {
    forall k :: 0 <= k < |sp| ==> lo <= sp[k].0 <= sp[k].1 <= hi
  }

  lemma WithinCons(x: (nat, nat), sp: seq<(nat, nat)>, lo: nat, hi: nat)
    requires lo <= x.0 <= x.1 < hi && Within(sp, x.1 + 1, hi)
    ensures Within([x] + sp, lo, hi)
  {
    assert forall k :: 1 <= k < |sp| + 1 ==> ([x] + sp)[k] == sp[k - 1];
  }

  /** The spans of the tokens a `strtok` loop yields from position `i` on, in
      order. */
  function TokenSpansFrom(s: string, i: nat, d: string): (r: seq<(nat, nat)>)
    requires i <= |s|
    decreases |s| - i
    ensures Within(r, i, |s|)
  {
    match TokenAt(s, i, d)
    case None => []
    case Some((a, e)) =>
      if e == |s| then [(a, e)]
      else
        var rest := TokenSpansFrom(s, e + 1, d);
        WithinCons((a, e), rest, i, |s|);
        [(a, e)] + rest
  }

  /** The spans of the tokens a `strtok` loop over `s` yields. */
  function TokenSpans(s: string, d: string): seq<(nat, nat)>
  {
    TokenSpansFrom(s, 0, d)
  }

  /** The text of `s` a span marks (empty for a span outside `s`). */
  function Segment(s: string, x: (nat, nat)): string
  {
    if x.0 <= x.1 <= |s| then s[x.0..x.1] else []
  }

  /** The texts of `s` the spans `sp` mark, in order. */
  function Slices(s: string, sp: seq<(nat, nat)>): (r: seq<string>)
    ensures |r| == |sp|
  {
    seq(|sp|, k requires 0 <= k < |sp| => Segment(s, sp[k]))
  }

  lemma SlicesCons(s: string, x: (nat, nat), sp: seq<(nat, nat)>)
    ensures Slices(s, [x] + sp) == [Segment(s, x)] + Slices(s, sp)
  {
    assert forall k :: 1 <= k < |sp| + 1 ==> ([x] + sp)[k] == sp[k - 1];
  }

  /** The tokens a `strtok` loop over `s` yields, in order. */
  function Tokens(s: string, d: string): seq<string>
  {
    Slices(s, TokenSpans(s, d))
  }

  /** The token one `strtok` call from position `i` returns, if any. */
  function FirstTokenFrom(s: string, i: nat, d: string): Option<string>
    requires i <= |s|
  {
    match TokenAt(s, i, d)
    case None => None
    case Some((a, e)) => Some(s[a..e])
  }

  /** The first token of `s`, if any: one `strtok` call whose remainder is unused. */
  function FirstToken(s: string, d: string): Option<string>
  {
    FirstTokenFrom(s, 0, d)
  }

  /** The first token is the head of the token list. */
  lemma FirstTokenIsHead(s: string, d: string)
    ensures FirstToken(s, d).None? <==> Tokens(s, d) == []
    ensures FirstToken(s, d).Some? ==> FirstToken(s, d).value == Tokens(s, d)[0]
  {
  }

  /** A string has no tokens exactly when it consists of delimiters only. */
  lemma TokensEmpty(s: string, d: string)
    ensures Tokens(s, d) == [] <==> AllDelims(s, d)
  {
    TokenAtSpec(s, 0, d);
  }

  /** The `k`-th token span from `i` is the first token's span, or a later span
      of the tokens after that first token. */
  lemma TokenSpansIndex(s: string, i: nat, d: string, k: nat)
    requires i <= |s| && k < |TokenSpansFrom(s, i, d)|
    ensures TokenAt(s, i, d).Some?
    ensures k == 0 ==> TokenSpansFrom(s, i, d)[k] == TokenAt(s, i, d).value
    ensures k > 0 ==> (
      TokenAt(s, i, d).value.1 < |s| &&
      k - 1 < |TokenSpansFrom(s, TokenAt(s, i, d).value.1 + 1, d)| &&
      TokenSpansFrom(s, i, d)[k] == TokenSpansFrom(s, TokenAt(s, i, d).value.1 + 1, d)[k - 1])
  {
  }

  /** Each token span is a non-empty run free of delimiters, ended by a
      delimiter or by the end of `s`. */
  lemma {:induction false} TokenSpanFacts(s: string, i: nat, d: string, k: nat)
    requires i <= |s| && k < |TokenSpansFrom(s, i, d)|
    decreases |s| - i
    ensures TokenSpansFrom(s, i, d)[k].0 < TokenSpansFrom(s, i, d)[k].1
    ensures forall j :: TokenSpansFrom(s, i, d)[k].0 <= j < TokenSpansFrom(s, i, d)[k].1 ==> s[j] !in d
    ensures TokenSpansFrom(s, i, d)[k].1 < |s| ==> s[TokenSpansFrom(s, i, d)[k].1] in d
  {
    TokenSpansIndex(s, i, d, k);
    var e := TokenAt(s, i, d).value.1;
    if k == 0 {
      TokenAtSpec(s, i, d);
    } else {
      TokenSpanFacts(s, e + 1, d, k - 1);
    }
  }

  /** Token spans are strictly ordered: each ends before the next begins. */
  lemma {:induction false} TokenSpansOrdered(s: string, i: nat, d: string, k: nat, m: nat)
    requires i <= |s| && k < m < |TokenSpansFrom(s, i, d)|
    decreases |s| - i
    ensures TokenSpansFrom(s, i, d)[k].1 < TokenSpansFrom(s, i, d)[m].0
  {
    TokenSpansIndex(s, i, d, k);
    TokenSpansIndex(s, i, d, m);
    var e := TokenAt(s, i, d).value.1;
    if k > 0 {
      TokenSpansOrdered(s, e + 1, d, k - 1, m - 1);
    }
  }

  /** No character of `t` is a delimiter. */
  predicate DelimFree(t: string, d: string)
  {
    forall m :: 0 <= m < |t| ==> t[m] !in d
  }

  /** Every member of `ts` is a non-empty, delimiter-free word. */
  predicate Words(ts: seq<string>, d: string)
  {
    forall k :: 0 <= k < |ts| ==> |ts[k]| > 0 && DelimFree(ts[k], d)
  }

  /** Every token of `s` is non-empty and free of delimiters. */
  lemma TokensShape(s: string, d: string)
    ensures Words(Tokens(s, d), d)
  {
    var sp := TokenSpans(s, d);
    forall k | 0 <= k < |sp|
      ensures |Tokens(s, d)[k]| > 0 && DelimFree(Tokens(s, d)[k], d)
    {
      TokenSpanFacts(s, 0, d, k);
      var (a, e) := sp[k];
      assert Tokens(s, d)[k] == s[a..e];
      assert forall m :: 0 <= m < e - a ==> s[a..e][m] == s[a + m];
    }
  }

  /** A non-empty string free of delimiters is its own single token. */
  lemma NoDelimSingleToken(s: string, d: string)
    requires |s| > 0 && DelimFree(s, d)
    ensures Tokens(s, d) == [s]
  {
    assert Skip(s, 0, d) == 0;
    ScanAll(s, 0, d);
    assert Scan(s, 0, d) == |s|;
    assert TokenSpans(s, d) == [(0, |s|)];
    assert s[0..|s|] == s;
  }

  /** The field spans of `s` from position `i` on, cut at every delimiter, empty
      fields included. */
  function FieldSpansFrom(s: string, i: nat, d: string): (r: seq<(nat, nat)>)
    requires i <= |s|
    decreases |s| - i
    ensures |r| > 0 && Within(r, i, |s|)
  {
    var e := Scan(s, i, d);
    if e == |s| then [(i, e)]
    else
      var rest := FieldSpansFrom(s, e + 1, d);
      WithinCons((i, e), rest, i, |s|);
      [(i, e)] + rest
  }

  /** The fields of `s` cut at every delimiter: a reference definition of
      splitting that keeps the empty text between neighbouring delimiters. */
  function Fields(s: string, d: string): seq<string>
  {
    Slices(s, FieldSpansFrom(s, 0, d))
  }

  /** The non-empty members of `fs`, in order. */
  function NonEmpty(fs: seq<string>): seq<string>
  {
    if fs == [] then []
    else if fs[0] == [] then NonEmpty(fs[1..])
    else [fs[0]] + NonEmpty(fs[1..])
  }

  /** The spans of `sp` that are not empty, in order. */
  function NonEmptySpans(sp: seq<(nat, nat)>): seq<(nat, nat)>
  {
    if sp == [] then []
    else if sp[0].0 >= sp[0].1 then NonEmptySpans(sp[1..])
    else [sp[0]] + NonEmptySpans(sp[1..])
  }

  /** `NonEmpty` drops an empty head and keeps any other. */
  lemma NonEmptyCons(x: string, fs: seq<string>)
    ensures NonEmpty([x] + fs) == if x == [] then NonEmpty(fs) else [x] + NonEmpty(fs)
  {
    assert ([x] + fs)[1..] == fs;
  }

  lemma NonEmptySpansCons(x: (nat, nat), sp: seq<(nat, nat)>)
    ensures NonEmptySpans([x] + sp) ==
      if x.0 >= x.1 then NonEmptySpans(sp) else [x] + NonEmptySpans(sp)
  {
    assert ([x] + sp)[1..] == sp;
  }

  /** A delimiter at `i` is skipped: the tokens from `i` are those from `i + 1`. */
  lemma TokenSpansAtDelim(s: string, i: nat, d: string)
    requires i < |s| && s[i] in d
    ensures TokenSpansFrom(s, i, d) == TokenSpansFrom(s, i + 1, d)
  {
    assert TokenAt(s, i, d) == TokenAt(s, i + 1, d);
  }

  /** A non-delimiter at `i` starts a token that runs to the next delimiter. */
  lemma TokenSpansAtWord(s: string, i: nat, d: string)
    requires i < |s| && s[i] !in d
    ensures TokenSpansFrom(s, i, d) ==
      if Scan(s, i, d) == |s| then [(i, |s|)]
      else [(i, Scan(s, i, d))] + TokenSpansFrom(s, Scan(s, i, d) + 1, d)
  {
    assert TokenAt(s, i, d) == Some((i, Scan(s, i, d)));
  }

  /** A field ended by a delimiter is followed by the fields after it. */
  lemma FieldSpansStep(s: string, i: nat, d: string)
    requires i <= |s| && Scan(s, i, d) < |s|
    ensures FieldSpansFrom(s, i, d) == [(i, Scan(s, i, d))] + FieldSpansFrom(s, Scan(s, i, d) + 1, d)
  {
  }

  lemma NonEmptyFieldsAtDelim(s: string, i: nat, d: string)
    requires i < |s| && s[i] in d
    requires TokenSpansFrom(s, i + 1, d) == NonEmptySpans(FieldSpansFrom(s, i + 1, d))
    ensures TokenSpansFrom(s, i, d) == NonEmptySpans(FieldSpansFrom(s, i, d))
  {
    TokenSpansAtDelim(s, i, d);
    FieldSpansStep(s, i, d);
    NonEmptySpansCons((i, i), FieldSpansFrom(s, i + 1, d));
  }

  lemma NonEmptyFieldsAtWord(s: string, i: nat, d: string)
    requires i < |s| && s[i] !in d && Scan(s, i, d) < |s|
    requires TokenSpansFrom(s, Scan(s, i, d) + 1, d) ==
      NonEmptySpans(FieldSpansFrom(s, Scan(s, i, d) + 1, d))
    ensures TokenSpansFrom(s, i, d) == NonEmptySpans(FieldSpansFrom(s, i, d))
  {
    TokenSpansAtWord(s, i, d);
    FieldSpansStep(s, i, d);
    NonEmptySpansCons((i, Scan(s, i, d)), FieldSpansFrom(s, Scan(s, i, d) + 1, d));
  }

  lemma NonEmptyFieldsAtLastWord(s: string, i: nat, d: string)
    requires i < |s| && s[i] !in d && Scan(s, i, d) == |s|
    ensures TokenSpansFrom(s, i, d) == NonEmptySpans(FieldSpansFrom(s, i, d))
  {
    TokenSpansAtWord(s, i, d);
    NonEmptySpansCons((i, |s|), []);
  }

  /** A token ended by a delimiter is followed by the tokens after it. */
  lemma TokenSpansCut(s: string, i: nat, d: string, a: nat, e: nat)
    requires i <= |s| && TokenAt(s, i, d) == Some((a, e)) && e < |s|
    ensures TokenSpansFrom(s, i, d) == [(a, e)] + TokenSpansFrom(s, e + 1, d)
  {
  }

  /** The token spans are the non-empty field spans. */
  lemma {:induction false} TokenSpansAreNonEmptyFieldSpans(s: string, i: nat, d: string)
    requires i <= |s|
    decreases |s| - i
    ensures TokenSpansFrom(s, i, d) == NonEmptySpans(FieldSpansFrom(s, i, d))
  {
    if i == |s| {
      NonEmptySpansCons((i, i), []);
    } else if s[i] in d {
      TokenSpansAreNonEmptyFieldSpans(s, i + 1, d);
      NonEmptyFieldsAtDelim(s, i, d);
    } else if Scan(s, i, d) < |s| {
      TokenSpansAreNonEmptyFieldSpans(s, Scan(s, i, d) + 1, d);
      NonEmptyFieldsAtWord(s, i, d);
    } else {
      NonEmptyFieldsAtLastWord(s, i, d);
    }
  }

  /** Reading the non-empty spans gives the non-empty texts. */
  lemma {:induction false} SlicesNonEmpty(s: string, sp: seq<(nat, nat)>)
    requires Within(sp, 0, |s|)
    decreases |sp|
    ensures NonEmpty(Slices(s, sp)) == Slices(s, NonEmptySpans(sp))
  {
    if sp != [] {
      var x, rest := sp[0], sp[1..];
      assert sp == [x] + rest;
      assert Within(rest, 0, |s|) by {
        assert forall k :: 0 <= k < |rest| ==> rest[k] == sp[k + 1];
      }
      SlicesNonEmpty(s, rest);
      SlicesCons(s, x, rest);
      NonEmptyCons(Segment(s, x), Slices(s, rest));
      NonEmptySpansCons(x, rest);
      if x.0 < x.1 {
        SlicesCons(s, x, NonEmptySpans(rest));
      }
    }
  }

  /** The `strtok` loop yields exactly the non-empty fields of `s`: the maximal
      non-empty runs free of delimiters, in order. */
  lemma TokensAreNonEmptyFields(s: string, d: string)
    ensures Tokens(s, d) == NonEmpty(Fields(s, d))
  {
    TokenSpansAreNonEmptyFieldSpans(s, 0, d);
    SlicesNonEmpty(s, FieldSpansFrom(s, 0, d));
  }

  /** The fields joined back together with `sep` between neighbours. */
  function Join(fs: seq<string>, sep: char): string
  {
    if |fs| == 0 then []
    else if |fs| == 1 then fs[0]
    else fs[0] + [sep] + Join(fs[1..], sep)
  }

  lemma JoinCons(x: string, fs: seq<string>, sep: char)
    requires |fs| > 0
    ensures Join([x] + fs, sep) == x + [sep] + Join(fs, sep)
  {
    assert ([x] + fs)[1..] == fs;
  }

  /** Joining a field that ends just before the separator at `e` onto the
      fields of the rest gives back the text from `i` on. */
  lemma JoinStep(s: string, i: nat, e: nat, c: char, fs: seq<string>)
    requires i <= e < |s| && s[e] == c && |fs| > 0 && Join(fs, c) == s[e + 1..]
    ensures Join([s[i..e]] + fs, c) == s[i..]
  {
    JoinCons(s[i..e], fs, c);
    assert s[i..] == s[i..e] + [s[e]] + s[e + 1..];
  }

  /** Joining the fields from `i` gives the text from `i` on, once it does so for
      the fields after the first separator. */
  lemma FieldsJoinStep(s: string, i: nat, c: char)
    requires i <= |s| && Scan(s, i, [c]) < |s|
    requires Join(Slices(s, FieldSpansFrom(s, Scan(s, i, [c]) + 1, [c])), c) == s[Scan(s, i, [c]) + 1..]
    ensures Join(Slices(s, FieldSpansFrom(s, i, [c])), c) == s[i..]
  {
    var e := Scan(s, i, [c]);
    var fs := Slices(s, FieldSpansFrom(s, e + 1, [c]));
    FieldSpansStep(s, i, [c]);
    SlicesCons(s, (i, e), FieldSpansFrom(s, e + 1, [c]));
    assert Segment(s, (i, e)) == s[i..e] && s[e] == c && |fs| > 0;
    JoinStep(s, i, e, c, fs);
  }

  /** A field that runs to the end of `s` is the last one. */
  lemma FieldsJoinLast(s: string, i: nat, c: char)
    requires i <= |s| && Scan(s, i, [c]) == |s|
    ensures Join(Slices(s, FieldSpansFrom(s, i, [c])), c) == s[i..]
  {
    assert Slices(s, FieldSpansFrom(s, i, [c])) == [s[i..|s|]];
    assert s[i..|s|] == s[i..];
  }

  lemma {:induction false} FieldsFromJoin(s: string, i: nat, c: char)
    requires i <= |s|
    decreases |s| - i
    ensures Join(Slices(s, FieldSpansFrom(s, i, [c])), c) == s[i..]
  {
    if Scan(s, i, [c]) < |s| {
      FieldsFromJoin(s, Scan(s, i, [c]) + 1, c);
      FieldsJoinStep(s, i, c);
    } else {
      FieldsJoinLast(s, i, c);
    }
  }

  /** Every field is free of the delimiters. */
  lemma FieldsFree(s: string, d: string)
    ensures forall k :: 0 <= k < |Fields(s, d)| ==> DelimFree(Fields(s, d)[k], d)
  {
    forall k | 0 <= k < |Fields(s, d)| ensures DelimFree(Fields(s, d)[k], d) {
      FieldSpanFree(s, 0, d, k);
      var (a, e) := FieldSpansFrom(s, 0, d)[k];
      assert forall m :: 0 <= m < e - a ==> s[a..e][m] == s[a + m];
    }
  }

  lemma {:induction false} FieldSpanFree(s: string, i: nat, d: string, k: nat)
    requires i <= |s| && k < |FieldSpansFrom(s, i, d)|
    decreases |s| - i
    ensures forall j :: FieldSpansFrom(s, i, d)[k].0 <= j < FieldSpansFrom(s, i, d)[k].1 ==> s[j] !in d
  {
    var e := Scan(s, i, d);
    if k == 0 {
      ScanAll(s, i, d);
    } else {
      FieldSpanFree(s, e + 1, d, k - 1);
    }
  }

  /** Splitting at one character and joining back with it gives the string back,
      and no field holds that character: the fields are exactly the text between
      successive occurrences. */
  lemma FieldsJoin(s: string, c: char)
    ensures Join(Fields(s, [c]), c) == s
    ensures forall k :: 0 <= k < |Fields(s, [c])| ==> DelimFree(Fields(s, [c])[k], [c])
  {
    FieldsFromJoin(s, 0, c);
    FieldsFree(s, [c]);
  }

  lemma {:induction false} SkipAgree(s: string, i: nat, d1: string, d2: string)
    requires i <= |s|
    requires forall j :: i <= j < |s| ==> (s[j] in d1 <==> s[j] in d2)
    decreases |s| - i
    ensures Skip(s, i, d1) == Skip(s, i, d2)
  {
    if i < |s| && s[i] in d1 {
      SkipAgree(s, i + 1, d1, d2);
    }
  }

  lemma {:induction false} ScanAgree(s: string, i: nat, d1: string, d2: string)
    requires i <= |s|
    requires forall j :: i <= j < |s| ==> (s[j] in d1 <==> s[j] in d2)
    decreases |s| - i
    ensures Scan(s, i, d1) == Scan(s, i, d2)
  {
    if i < |s| && s[i] !in d1 {
      ScanAgree(s, i + 1, d1, d2);
    }
  }

  lemma TokenAtAgree(s: string, i: nat, d1: string, d2: string)
    requires i <= |s|
    requires forall j :: i <= j < |s| ==> (s[j] in d1 <==> s[j] in d2)
    ensures TokenAt(s, i, d1) == TokenAt(s, i, d2)
  {
    SkipAgree(s, i, d1, d2);
    var a := Skip(s, i, d1);
    if a < |s| {
      ScanAgree(s, a, d1, d2);
    }
  }

  lemma {:induction false} TokenSpansAgree(s: string, i: nat, d1: string, d2: string)
    requires i <= |s|
    requires forall j :: i <= j < |s| ==> (s[j] in d1 <==> s[j] in d2)
    decreases |s| - i
    ensures TokenSpansFrom(s, i, d1) == TokenSpansFrom(s, i, d2)
  {
    TokenAtAgree(s, i, d1, d2);
    match TokenAt(s, i, d1)
    case None =>
    case Some((a, e)) =>
      if e < |s| {
        TokenSpansAgree(s, e + 1, d1, d2);
      }
  }

  /** Delimiters that never occur in `s` make no difference to its tokens. */
  lemma TokensIgnoreAbsentDelims(s: string, d: string, extra: string)
    requires forall i :: 0 <= i < |s| ==> s[i] !in extra
    ensures Tokens(s, d + extra) == Tokens(s, d)
  {
    TokenSpansAgree(s, 0, d + extra, d);
  }

  /** No occurrence of `c` in `s` is followed, anywhere later, by a delimiter. */
  predicate NoneBefore(s: string, c: char, d: string)
  {
    forall a, b :: 0 <= a < b < |s| && s[a] == c ==> s[b] !in d
  }

  /** No member of `ts` but the last holds `c`. */
  predicate FreeExceptLast(ts: seq<string>, c: char)
  {
    forall k :: 0 <= k < |ts| - 1 ==> c !in ts[k]
  }

  /** When no `c` comes before a delimiter, every token but the last is free of `c`. */
  lemma MarkOnlyInLast(s: string, c: char, d: string)
    requires NoneBefore(s, c, d)
    ensures FreeExceptLast(Tokens(s, d), c)
  {
    var sp := TokenSpans(s, d);
    forall k | 0 <= k < |sp| - 1 ensures c !in Tokens(s, d)[k] {
      TokenSpansOrdered(s, 0, d, k, k + 1);
      TokenSpanFacts(s, 0, d, k);
      var (a, e) := sp[k];
      assert e < |s| && s[e] in d;
      assert Tokens(s, d)[k] == s[a..e];
      assert forall m :: 0 <= m < e - a ==> s[a..e][m] == s[a + m];
    }
  }
}
