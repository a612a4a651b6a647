/** A model of C's in-place `strtok` on a character buffer. The buffer is a
    sequence of characters in which `NUL` ends a string. `strtok` overwrites the
    delimiter after each token with `NUL` and remembers where it stopped. */
module CBuffer {
  import opened Wrappers
  import opened CString

  /** The C string terminator. */
  const NUL: char := '\0'

  /** `s` holds no terminator, so it can be a C string's contents. */
  predicate NoNul(s: string)
  {
    forall i :: 0 <= i < |s| ==> s[i] != NUL
  }

  /** The buffer's last character is a terminator, so every string in it ends. */
  predicate Terminated(buf: string)
  {
    |buf| > 0 && buf[|buf| - 1] == NUL
  }

  /** `strlen` of the string that starts at position `p`. */
  function StrLen(buf: string, p: nat): (n: nat)
    requires p <= |buf|
    decreases |buf| - p
    ensures p + n <= |buf|
    ensures p + n < |buf| ==> buf[p + n] == NUL
  {
    if p == |buf| || buf[p] == NUL then 0 else 1 + StrLen(buf, p + 1)
  }

  /** No terminator comes before the one `strlen` stops at. */
  lemma {:induction false} StrLenNoNul(buf: string, p: nat)
    requires p <= |buf|
    decreases |buf| - p
    ensures forall i :: p <= i < p + StrLen(buf, p) ==> buf[i] != NUL
  {
    if p < |buf| && buf[p] != NUL {
      StrLenNoNul(buf, p + 1);
    }
  }

  /** `strlen` stops at the first terminator. */
  lemma {:induction false} StrLenIs(buf: string, p: nat, n: nat)
    requires p + n < |buf| && buf[p + n] == NUL
    requires forall i :: p <= i < p + n ==> buf[i] != NUL
    decreases n
    ensures StrLen(buf, p) == n
  {
    if n > 0 {
      StrLenIs(buf, p + 1, n - 1);
    }
  }

  /** The C string that starts at position `p`. */
  function StrAt(buf: string, p: nat): (s: string)
    requires p <= |buf|
    ensures NoNul(s)
    ensures p + |s| <= |buf|
    ensures Terminated(buf) && p < |buf| ==> p + |s| < |buf| && buf[p + |s|] == NUL
  {
    StrLenNoNul(buf, p);
    buf[p..p + StrLen(buf, p)]
  }

  /** A string laid out at `p` and followed by a terminator is what `StrAt` reads there. */
  lemma StrAtIs(buf: string, p: nat, s: string)
    requires NoNul(s) && p + |s| < |buf|
    requires buf[p..p + |s|] == s && buf[p + |s|] == NUL
    ensures StrAt(buf, p) == s
  {
    forall i | p <= i < p + |s| ensures buf[i] != NUL {
      assert buf[i] == s[i - p];
    }
    StrLenIs(buf, p, |s|);
  }

  /** Two buffers that agree from `p` up to and including the terminator of the
      string at `p` hold the same string there. */
  lemma StrAtFrame(b1: string, b2: string, p: nat)
    requires Terminated(b1) && p < |b1| && |b1| == |b2|
    requires forall i :: p <= i <= p + |StrAt(b1, p)| ==> b2[i] == b1[i]
    ensures StrAt(b2, p) == StrAt(b1, p)
  {
    var s := StrAt(b1, p);
    assert b2[p..p + |s|] == s;
    StrAtIs(b2, p, s);
  }

  /** Overwriting a character of the string at `p` with a terminator cuts the string there. */
  lemma StrAtCut(buf: string, p: nat, w: nat)
    requires Terminated(buf) && p < |buf| && p <= w < p + |StrAt(buf, p)|
    ensures StrAt(buf[w := NUL], p) == StrAt(buf, p)[..w - p]
  {
    var s := StrAt(buf, p);
    var b2 := buf[w := NUL];
    assert b2[p..w] == s[..w - p];
    StrAtIs(b2, p, s[..w - p]);
  }

  /** The state one `strtok` call leaves: the buffer, the token it returned
      (None for NULL) and the saved position the next `strtok(NULL, …)` resumes from. */
  datatype Tok = Tok(buf: string, start: Option<nat>, save: nat)

  /** `strtok` resuming at position `i` (glibc's algorithm): skip leading
      delimiters; at a terminator return NULL and stay there; otherwise the token
      runs to the next delimiter or terminator, a delimiter is overwritten with a
      terminator and the next call resumes just after it. */
  function BufStrtok(buf: string, i: nat, d: string): (t: Tok)
    requires Terminated(buf) && i < |buf| && NUL !in d
    ensures |t.buf| == |buf| && Terminated(t.buf) && i <= t.save < |buf|
    ensures t.start.Some? ==> i <= t.start.value < t.save
    ensures t.start.Some? ==> buf[t.start.value] !in d && buf[t.start.value] != NUL
    ensures t.start.None? ==> t.buf == buf && buf[t.save] == NUL
  {
    SkipStops(buf, i, d, |buf| - 1);
    var a := Skip(buf, i, d);
    if buf[a] == NUL then Tok(buf, None, a)
    else
      ScanStops(buf, a, d + [NUL], |buf| - 1);
      var e := Scan(buf, a, d + [NUL]);
      if buf[e] == NUL then Tok(buf, Some(a), e)
      else Tok(buf[e := NUL], Some(a), e + 1)
  }

  /** The state a run of `strtok(NULL, …)` calls leaves once one returns NULL:
      the buffer and the starts of the tokens found, in order. */
  datatype Run = Run(buf: string, starts: seq<nat>)

  /** `strtok(NULL, d)` called again and again, resuming at `i`, until it
      returns NULL. */
  function BufTokens(buf: string, i: nat, d: string): (r: Run)
    requires Terminated(buf) && i < |buf| && NUL !in d
    decreases |buf| - i
    ensures |r.buf| == |buf| && Terminated(r.buf)
    ensures forall k :: 0 <= k < |r.starts| ==> i <= r.starts[k] < |buf|
  {
    var t := BufStrtok(buf, i, d);
    match t.start
    case None => Run(t.buf, [])
    case Some(a) =>
      var rest := BufTokens(t.buf, t.save, d);
      Run(rest.buf, [a] + rest.starts)
  }

  /** Resumed at a terminator, the run finds nothing and writes nothing. */
  lemma BufTokensAtNul(buf: string, i: nat, d: string)
    requires Terminated(buf) && i < |buf| && NUL !in d && buf[i] == NUL
    ensures BufTokens(buf, i, d) == Run(buf, [])
  {
    assert Skip(buf, i, d) == i;
  }

  /** From position `i` on, `buf` holds the C string `s` and its terminator
      (positions before `i` may hold anything). */
  predicate Holds(buf: string, s: string, i: nat)
  {
    |s| < |buf| && buf[|s|] == NUL && NoNul(s) && forall j :: i <= j < |s| ==> buf[j] == s[j]
  }

  lemma {:induction false} SkipInBuffer(buf: string, s: string, i: nat, d: string)
    requires Holds(buf, s, i) && i <= |s| && NUL !in d
    decreases |s| - i
    ensures Skip(buf, i, d) == Skip(s, i, d)
  {
    if i < |s| && s[i] in d {
      SkipInBuffer(buf, s, i + 1, d);
    }
  }

  lemma {:induction false} ScanInBuffer(buf: string, s: string, i: nat, d: string)
    requires Holds(buf, s, i) && i <= |s|
    decreases |s| - i
    ensures Scan(buf, i, d + [NUL]) == Scan(s, i, d)
  {
    if i < |s| && s[i] !in d {
      assert s[i] != NUL;
      ScanInBuffer(buf, s, i + 1, d);
    }
  }

  /** One `strtok` call over a buffer holding `s` finds the token `TokenAt`
      finds in `s`, writes a terminator only just after that token, and leaves
      the buffer holding `s` from where the next call resumes. */
  lemma BufStrtokHolds(buf: string, s: string, i: nat, d: string)
    requires Terminated(buf) && Holds(buf, s, i) && i <= |s| && NUL !in d
    ensures var t := BufStrtok(buf, i, d);
      match TokenAt(s, i, d)
      case None => t == Tok(buf, None, |s|)
      case Some((a, e)) =>
        if e == |s| then t == Tok(buf, Some(a), |s|)
        else t == Tok(buf[e := NUL], Some(a), e + 1)
  {
    SkipInBuffer(buf, s, i, d);
    var a := Skip(s, i, d);
    if a < |s| {
      ScanInBuffer(buf, s, a, d);
    }
  }

  /** The case of `BufStrtokHolds` where a delimiter ends the token. */
  lemma BufStrtokCut(buf: string, s: string, i: nat, d: string, a: nat, e: nat)
    requires Terminated(buf) && Holds(buf, s, i) && i <= |s| && NUL !in d
    requires TokenAt(s, i, d) == Some((a, e)) && e < |s|
    ensures BufStrtok(buf, i, d) == Tok(buf[e := NUL], Some(a), e + 1)
    ensures Terminated(buf[e := NUL]) && Holds(buf[e := NUL], s, e + 1)
  {
    BufStrtokHolds(buf, s, i, d);
  }

  /** One `strtok` call over a buffer holding `s` from `i`: it returns NULL
      exactly when no token is left; otherwise it returns the start of the next
      token, which reads back as that token, and leaves the rest of `s` in
      place for the next call. */
  lemma StrtokNext(buf: string, s: string, i: nat, d: string)
    requires Terminated(buf) && Holds(buf, s, i) && i <= |s| && NUL !in d
    ensures var t := BufStrtok(buf, i, d); var sp := TokenSpansFrom(s, i, d);
      (t.start.None? <==> sp == []) &&
      (sp != [] ==>
        t.start == Some(sp[0].0) && t.save <= |s| && Terminated(t.buf) && Holds(t.buf, s, t.save) &&
        sp == [sp[0]] + TokenSpansFrom(s, t.save, d) && ReadsBack(t.buf, sp[0].0, Segment(s, sp[0])))
  {
    match TokenAt(s, i, d)
    case None =>
      BufStrtokHolds(buf, s, i, d);
    case Some((a, e)) =>
      if e < |s| {
        StrtokNextCut(buf, s, i, d, a, e);
      } else {
        StrtokNextLast(buf, s, i, d, a);
      }
  }

  lemma StrtokNextCut(buf: string, s: string, i: nat, d: string, a: nat, e: nat)
    requires Terminated(buf) && Holds(buf, s, i) && i <= |s| && NUL !in d
    requires TokenAt(s, i, d) == Some((a, e)) && e < |s|
    ensures var t := BufStrtok(buf, i, d); var sp := TokenSpansFrom(s, i, d);
      sp != [] && t.start == Some(sp[0].0) && t.save <= |s| && Terminated(t.buf) && Holds(t.buf, s, t.save) &&
      sp == [sp[0]] + TokenSpansFrom(s, t.save, d) && ReadsBack(t.buf, sp[0].0, Segment(s, sp[0]))
  {
    BufStrtokCut(buf, s, i, d, a, e);
    var b := buf[e := NUL];
    StrAtSlice(b, s, a, e);
    assert ReadsBack(b, a, s[a..e]);
    var sp := TokenSpansFrom(s, i, d);
    assert sp == [(a, e)] + TokenSpansFrom(s, e + 1, d);
    assert sp[0] == (a, e) && Segment(s, sp[0]) == s[a..e];
  }

  lemma StrtokNextLast(buf: string, s: string, i: nat, d: string, a: nat)
    requires Terminated(buf) && Holds(buf, s, i) && i <= |s| && NUL !in d
    requires TokenAt(s, i, d) == Some((a, |s|))
    ensures var t := BufStrtok(buf, i, d); var sp := TokenSpansFrom(s, i, d);
      sp != [] && t.start == Some(sp[0].0) && t.save <= |s| && Terminated(t.buf) && Holds(t.buf, s, t.save) &&
      sp == [sp[0]] + TokenSpansFrom(s, t.save, d) && ReadsBack(t.buf, sp[0].0, Segment(s, sp[0]))
  {
    BufStrtokHolds(buf, s, i, d);
    StrAtSlice(buf, s, a, |s|);
    assert TokenAt(s, |s|, d).None?;
    assert TokenSpansFrom(s, |s|, d) == [];
    assert TokenSpansFrom(s, i, d) == [(a, |s|)];
  }

  /** A run of the string `s` between `a` and a terminator at `e` reads back as
      that slice of `s`. */
  lemma StrAtSlice(buf: string, s: string, a: nat, e: nat)
    requires NoNul(s) && a <= e <= |s| && e < |buf| && buf[e] == NUL
    requires forall j :: a <= j < e ==> buf[j] == s[j]
    ensures StrAt(buf, a) == s[a..e]
  {
    assert buf[a..e] == s[a..e];
    StrAtIs(buf, a, s[a..e]);
  }

  /** `b2` differs from `b1` at most at positions in `[lo, hi)`. */
  predicate Unchanged(b1: string, b2: string, lo: nat, hi: nat)
  {
    |b1| == |b2| && forall j :: 0 <= j < |b1| && (j < lo || hi <= j) ==> b2[j] == b1[j]
  }

  /** The C string at position `p` of `b` is `text`. */
  predicate ReadsBack(b: string, p: nat, text: string)
  {
    Terminated(b) && p < |b| && StrAt(b, p) == text
  }

  /** The run found exactly the tokens of `s` whose spans are `sp`: one start per
      span, and the string at each start reads back as that span's text. */
  predicate Found(r: Run, s: string, sp: seq<(nat, nat)>)
  {
    |r.starts| == |sp| &&
    forall k :: 0 <= k < |sp| ==> r.starts[k] == sp[k].0 && ReadsBack(r.buf, sp[k].0, Segment(s, sp[k]))
  }

  /** After a token that ends the string, the next call returns NULL. */
  lemma BufTokensAtEnd(buf: string, s: string, d: string)
    requires Terminated(buf) && Holds(buf, s, |s|) && NUL !in d
    ensures BufTokens(buf, |s|, d) == Run(buf, [])
  {
    BufStrtokHolds(buf, s, |s|, d);
  }

  lemma BufTokensNone(buf: string, s: string, i: nat, d: string)
    requires Terminated(buf) && Holds(buf, s, i) && i <= |s| && NUL !in d
    requires TokenAt(s, i, d).None?
    ensures Found(BufTokens(buf, i, d), s, TokenSpansFrom(s, i, d))
    ensures Unchanged(buf, BufTokens(buf, i, d).buf, i, |s|)
  {
    BufStrtokHolds(buf, s, i, d);
    assert BufTokens(buf, i, d) == Run(buf, []);
  }

  lemma BufTokensLast(buf: string, s: string, i: nat, d: string)
    requires Terminated(buf) && Holds(buf, s, i) && i <= |s| && NUL !in d
    requires TokenAt(s, i, d).Some? && TokenAt(s, i, d).value.1 == |s|
    ensures Found(BufTokens(buf, i, d), s, TokenSpansFrom(s, i, d))
    ensures Unchanged(buf, BufTokens(buf, i, d).buf, i, |s|)
  {
    var a := TokenAt(s, i, d).value.0;
    BufStrtokHolds(buf, s, i, d);
    BufTokensAtEnd(buf, s, d);
    assert BufTokens(buf, i, d) == Run(buf, [a]);
    StrAtSlice(buf, s, a, |s|);
    assert ReadsBack(buf, a, Segment(s, (a, |s|)));
  }

  lemma FoundCons(b: string, starts: seq<nat>, s: string, x: (nat, nat), sp: seq<(nat, nat)>)
    requires Found(Run(b, starts), s, sp)
    requires ReadsBack(b, x.0, Segment(s, x))
    ensures Found(Run(b, [x.0] + starts), s, [x] + sp)
  {
    var starts', sp' := [x.0] + starts, [x] + sp;
    forall k | 0 <= k < |sp'|
      ensures starts'[k] == sp'[k].0 && ReadsBack(b, sp'[k].0, Segment(s, sp'[k]))
    {
      if k > 0 {
        assert sp'[k] == sp[k - 1] && starts'[k] == starts[k - 1];
      }
    }
  }

  lemma UnchangedAfterWrite(buf: string, b: string, i: nat, e: nat, hi: nat)
    requires i <= e < hi && e < |buf| && Unchanged(buf[e := NUL], b, e + 1, hi)
    ensures Unchanged(buf, b, i, hi)
  {
  }

  /** The token ended by the terminator written at `e` still reads back after
      later calls that write only after `e`. */
  lemma HeadReadsBack(buf: string, b: string, s: string, i: nat, a: nat, e: nat)
    requires Terminated(buf) && Holds(buf, s, i) && i <= a <= e < |s|
    requires Unchanged(buf[e := NUL], b, e + 1, |s|)
    ensures ReadsBack(b, a, Segment(s, (a, e)))
  {
    StrAtSlice(b, s, a, e);
  }

  /** One step of the run: the first call finds the first token of `s` and
      writes a terminator just after it, and the run goes on from there. */
  lemma BufTokensUnfold(buf: string, s: string, i: nat, d: string, a: nat, e: nat)
    requires Terminated(buf) && Holds(buf, s, i) && i <= |s| && NUL !in d
    requires TokenAt(s, i, d) == Some((a, e)) && e < |s|
    ensures BufTokens(buf, i, d) ==
      Run(BufTokens(buf[e := NUL], e + 1, d).buf, [a] + BufTokens(buf[e := NUL], e + 1, d).starts)
  {
    BufStrtokCut(buf, s, i, d, a, e);
  }

  lemma BufTokensStep(buf: string, s: string, i: nat, d: string, a: nat, e: nat)
    requires Terminated(buf) && Holds(buf, s, i) && i <= |s| && NUL !in d
    requires TokenAt(s, i, d) == Some((a, e)) && e < |s|
    requires Found(BufTokens(buf[e := NUL], e + 1, d), s, TokenSpansFrom(s, e + 1, d))
    requires Unchanged(buf[e := NUL], BufTokens(buf[e := NUL], e + 1, d).buf, e + 1, |s|)
    ensures Found(BufTokens(buf, i, d), s, TokenSpansFrom(s, i, d))
    ensures Unchanged(buf, BufTokens(buf, i, d).buf, i, |s|)
  {
    var rest := BufTokens(buf[e := NUL], e + 1, d);
    BufTokensUnfold(buf, s, i, d, a, e);
    TokenSpansCut(s, i, d, a, e);
    HeadReadsBack(buf, rest.buf, s, i, a, e);
    FoundCons(rest.buf, rest.starts, s, (a, e), TokenSpansFrom(s, e + 1, d));
    UnchangedAfterWrite(buf, rest.buf, i, e, |s|);
  }

  /** Running `strtok(NULL, d)` to exhaustion over a buffer that holds `s` from
      `i` on finds exactly the tokens of `s` from `i`: the starts are the token
      spans' starts, each reads back as its token's text, and nothing outside
      `[i, |s|)` is written. */
  lemma {:induction false} BufTokensHolds(buf: string, s: string, i: nat, d: string)
    requires Terminated(buf) && Holds(buf, s, i) && i <= |s| && NUL !in d
    decreases |s| - i
    ensures Found(BufTokens(buf, i, d), s, TokenSpansFrom(s, i, d))
    ensures Unchanged(buf, BufTokens(buf, i, d).buf, i, |s|)
  {
    match TokenAt(s, i, d)
    case None =>
      BufTokensNone(buf, s, i, d);
    case Some((a, e)) =>
      if e == |s| {
        BufTokensLast(buf, s, i, d);
      } else {
        BufStrtokCut(buf, s, i, d, a, e);
        BufTokensHolds(buf[e := NUL], s, e + 1, d);
        BufTokensStep(buf, s, i, d, a, e);
      }
  }
}
