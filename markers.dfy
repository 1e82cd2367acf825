/**
 * The sentinel comments that delimit the managed region of the remote page, and
 * `mb_split` on the patterns `<!--\s*Start:Blekkio\s*-->` and `<!--\s*End:Blekkio\s*-->`.
 *
 * A marker is matched at a position by `MarkerLen`; `Split` cuts a text at every
 * leftmost, non-overlapping match, as `mb_split` does.
 */
module Markers {
  import opened Wrappers

  const StartToken := "Start:Blekkio"
  const EndToken := "End:Blekkio"

  /** The canonical markers written back around a new fragment. */
  const StartMarker := "<!-- " + StartToken + " -->"
  const EndMarker := "<!-- " + EndToken + " -->"

  /**
   * `\s` of the multibyte regex engine on UTF-8 text: the ASCII whitespace characters,
   * NEL, and the Unicode space, line and paragraph separators.
   */
  predicate IsMbSpace(c: char) {
    c == ' ' || c == '\t' || c == '\n' || c == '\U{0B}' || c == '\U{0C}' || c == '\r'
    || c == '\U{85}' || c == '\U{A0}' || c == '\U{1680}' || ('\U{2000}' <= c <= '\U{200A}')
    || c == '\U{2028}' || c == '\U{2029}' || c == '\U{202F}' || c == '\U{205F}' || c == '\U{3000}'
  }

  predicate AllSpace(s: string) {
    forall i :: 0 <= i < |s| ==> IsMbSpace(s[i])
  }

  /** A token the marker pattern can hold: it cannot be swallowed by `\s*` and holds no `<`. */
  predicate ValidToken(token: string) {
    |token| > 0 && !IsMbSpace(token[0]) && '<' !in token
  }

  /** The job's two tokens are valid. */
  lemma TokensValid()
    ensures ValidToken(StartToken) && ValidToken(EndToken)
  {
  }

  /** One element of a marker pattern: a literal word, or a greedy `\s*`. */
  datatype Piece = Word(w: string) | Blanks

  /** The pattern `<!--\s*TOKEN\s*-->`. */
  function MarkerPattern(token: string): seq<Piece> {
    [Word("<!--"), Blanks, Word(token), Blanks, Word("-->")]
  }

  /** `m` is made of the pieces of `pat`, in order: each word literally, each `\s*` as blanks. */
  ghost predicate Matches(m: string, pat: seq<Piece>)
    decreases |pat|
  {
    if pat == [] then m == []
    else match pat[0]
      case Word(w) => |w| <= |m| && m[..|w|] == w && Matches(m[|w|..], pat[1..])
      case Blanks => exists a :: 0 <= a <= |m| && AllSpace(m[..a]) && Matches(m[a..], pat[1..])
  }

  /** `m` is exactly one marker for `token`. */
  ghost predicate IsMarker(m: string, token: string) {
    Matches(m, MarkerPattern(token))
  }

  /**
   * Every `\s*` is followed by a word that starts with a non-blank, so matching each run
   * greedily never has to give characters back.
   */
  predicate GreedySafe(pat: seq<Piece>) {
    forall i :: 0 <= i < |pat| && pat[i].Blanks? ==>
      i + 1 < |pat| && pat[i + 1].Word? && |pat[i + 1].w| > 0 && !IsMbSpace(pat[i + 1].w[0])
  }

  /** The end of the longest run of `\s` characters in `t` that starts at `k`. */
  function SkipSpaces(t: string, k: nat): (j: nat)
    requires k <= |t|
    ensures k <= j <= |t|
    ensures forall i :: k <= i < j ==> IsMbSpace(t[i])
    ensures j < |t| ==> !IsMbSpace(t[j])
    decreases |t| - k
  {
    if k < |t| && IsMbSpace(t[k]) then SkipSpaces(t, k + 1) else k
  }

  /** Where a greedy match of the pieces of `pat` that starts at `k` of `t` ends, if it succeeds. */
  function MatchFrom(t: string, k: nat, pat: seq<Piece>): (r: Option<nat>)
    requires k <= |t|
    ensures r.Some? ==> k <= r.value <= |t|
    decreases |pat|
  {
    if pat == [] then Some(k)
    else match pat[0]
      case Word(w) =>
        if k + |w| <= |t| && t[k..k + |w|] == w then MatchFrom(t, k + |w|, pat[1..]) else None
      case Blanks => MatchFrom(t, SkipSpaces(t, k), pat[1..])
  }

  /** The length of the marker for `token` that starts `t`, if one does. */
  function MarkerLen(t: string, token: string): (r: Option<nat>)
    ensures r.Some? ==> 4 <= r.value <= |t| && t[..4] == "<!--"
  {
    MatchFrom(t, 0, MarkerPattern(token))
  }

  /** A run of blanks that stops before a non-blank is exactly what `SkipSpaces` skips. */
  lemma SkipSpacesExactly(t: string, k: nat, n: nat)
    requires k + n < |t|
    requires forall i :: k <= i < k + n ==> IsMbSpace(t[i])
    requires !IsMbSpace(t[k + n])
    ensures SkipSpaces(t, k) == k + n
  {
  }

  /** What the greedy matcher accepts matches the pattern. */
  lemma {:induction false} MatchFromSound(t: string, k: nat, pat: seq<Piece>)
    requires k <= |t| && MatchFrom(t, k, pat).Some?
    ensures Matches(t[k..MatchFrom(t, k, pat).value], pat)
    decreases |pat|
  {
    var n := MatchFrom(t, k, pat).value;
    if pat != [] {
      match pat[0]
      case Word(w) =>
        MatchFromSound(t, k + |w|, pat[1..]);
        assert t[k..n][..|w|] == t[k..k + |w|];
        assert t[k..n][|w|..] == t[k + |w|..n];
      case Blanks =>
        var j := SkipSpaces(t, k);
        MatchFromSound(t, j, pat[1..]);
        assert t[k..n][j - k..] == t[j..n];
        var run := t[k..n][..j - k];
        assert AllSpace(run) by {
          forall i | 0 <= i < |run| ensures IsMbSpace(run[i]) {
            assert run[i] == t[k + i];
          }
        }
    } else {
      assert t[k..n] == [];
    }
  }

  lemma GreedySafeTail(pat: seq<Piece>)
    requires pat != [] && GreedySafe(pat)
    ensures GreedySafe(pat[1..])
  {
  }

  /** The greedy matcher accepts every match of a greedy-safe pattern, and ends where it does. */
  lemma {:induction false} MatchFromComplete(t: string, k: nat, n: nat, pat: seq<Piece>)
    requires GreedySafe(pat) && k <= n <= |t| && Matches(t[k..n], pat)
    ensures MatchFrom(t, k, pat) == Some(n)
    decreases |pat|
  {
    if pat == [] {
      assert |t[k..n]| == 0;
    } else {
      GreedySafeTail(pat);
      var next;
      if pat[0].Word? {
        next := WordStep(t, k, n, pat);
      } else {
        next := BlanksStep(t, k, n, pat);
      }
      MatchFromComplete(t, next, n, pat[1..]);
    }
  }

  /** A match that starts with a word: the word is there, and the rest matches after it. */
  lemma WordStep(t: string, k: nat, n: nat, pat: seq<Piece>) returns (next: nat)
    requires pat != [] && pat[0].Word? && k <= n <= |t| && Matches(t[k..n], pat)
    ensures k <= next <= n && Matches(t[next..n], pat[1..])
    ensures MatchFrom(t, k, pat) == MatchFrom(t, next, pat[1..])
  {
    var m, w := t[k..n], pat[0].w;
    next := k + |w|;
    assert t[k..next] == m[..|w|];
    assert m[|w|..] == t[next..n];
  }

  lemma MatchesWordHead(m: string, pat: seq<Piece>)
    requires pat != [] && pat[0].Word? && Matches(m, pat)
    ensures |pat[0].w| <= |m| && m[..|pat[0].w|] == pat[0].w
  {
  }

  /** A match that starts with `\s*`: the greedy run ends where the match's run does. */
  lemma BlanksStep(t: string, k: nat, n: nat, pat: seq<Piece>) returns (next: nat)
    requires GreedySafe(pat) && pat != [] && pat[0].Blanks? && k <= n <= |t| && Matches(t[k..n], pat)
    ensures k <= next <= n && Matches(t[next..n], pat[1..])
    ensures MatchFrom(t, k, pat) == MatchFrom(t, next, pat[1..])
  {
    next := BlanksRun(t, k, n, pat);
    RunStopsAtWord(t, next, n, pat);
    SkipSpacesExactly(t, k, next - k);
  }

  /** The run of blanks a match starts with. */
  lemma BlanksRun(t: string, k: nat, n: nat, pat: seq<Piece>) returns (next: nat)
    requires pat != [] && pat[0].Blanks? && k <= n <= |t| && Matches(t[k..n], pat)
    ensures k <= next <= n && Matches(t[next..n], pat[1..])
    ensures forall i :: k <= i < next ==> IsMbSpace(t[i])
  {
    var m := t[k..n];
    var a :| 0 <= a <= |m| && AllSpace(m[..a]) && Matches(m[a..], pat[1..]);
    next := k + a;
    assert m[a..] == t[next..n];
    forall i | k <= i < next ensures IsMbSpace(t[i]) {
      assert t[i] == m[..a][i - k];
    }
  }

  /** In a greedy-safe pattern the text after a run of blanks starts with a non-blank. */
  lemma RunStopsAtWord(t: string, next: nat, n: nat, pat: seq<Piece>)
    requires GreedySafe(pat) && pat != [] && pat[0].Blanks? && next <= n <= |t|
    requires Matches(t[next..n], pat[1..])
    ensures next < |t| && !IsMbSpace(t[next])
  {
    assert 1 < |pat| && pat[1].Word? && |pat[1].w| > 0 && !IsMbSpace(pat[1].w[0]);
    var w := pat[1].w;
    MatchesWordHead(t[next..n], pat[1..]);
    assert t[next] == t[next..n][..|w|][0];
  }

  /** A match of pieces whose words hold no `<` holds no `<`. */
  lemma {:induction false} MatchesNoLt(m: string, pat: seq<Piece>)
    requires Matches(m, pat)
    requires forall i :: 0 <= i < |pat| && pat[i].Word? ==> '<' !in pat[i].w
    ensures '<' !in m
    decreases |pat|
  {
    if pat != [] {
      match pat[0]
      case Word(w) =>
        MatchesNoLt(m[|w|..], pat[1..]);
        assert m == m[..|w|] + m[|w|..];
      case Blanks =>
        var a :| 0 <= a <= |m| && AllSpace(m[..a]) && Matches(m[a..], pat[1..]);
        MatchesNoLt(m[a..], pat[1..]);
        assert m == m[..a] + m[a..];
        assert '<' !in m[..a] by {
          forall i | 0 <= i < a ensures m[..a][i] != '<' { assert IsMbSpace(m[..a][i]); }
        }
    }
  }

  /** What `MarkerLen` finds is a marker. */
  lemma MarkerLenSound(t: string, token: string)
    requires MarkerLen(t, token).Some?
    ensures var n := MarkerLen(t, token).value; n <= |t| && IsMarker(t[..n], token)
  {
    MatchFromSound(t, 0, MarkerPattern(token));
    assert t[0..MarkerLen(t, token).value] == t[..MarkerLen(t, token).value];
  }

  /** Every marker at the start of a text is found, whatever follows it. */
  lemma MarkerLenComplete(t: string, token: string, n: nat)
    requires ValidToken(token)
    requires n <= |t| && IsMarker(t[..n], token)
    ensures MarkerLen(t, token) == Some(n)
  {
    assert t[0..n] == t[..n];
    MatchFromComplete(t, 0, n, MarkerPattern(token));
  }

  /** A marker starts with `<` and has no other `<`. */
  lemma MarkerLtOnlyFirst(m: string, token: string)
    requires ValidToken(token) && IsMarker(m, token)
    ensures |m| > 0 && m[0] == '<'
    ensures forall i :: 0 < i < |m| ==> m[i] != '<'
  {
    var pat := MarkerPattern(token);
    assert m[..4] == "<!--";
    MatchesNoLt(m[4..], pat[1..]);
    forall i | 0 < i < |m| ensures m[i] != '<' {
      if i < 4 {
        assert m[i] == m[..4][i];
      } else {
        assert m[i] == m[4..][i - 4];
      }
    }
  }

  /** A match found at the start of `t` begins with `<` and has no `<` after it. */
  lemma MatchShape(t: string, token: string)
    requires ValidToken(token) && MarkerLen(t, token).Some?
    ensures var n := MarkerLen(t, token).value;
      0 < n <= |t| && t[0] == '<' && forall i :: 0 < i < n ==> t[i] != '<'
  {
    var n := MarkerLen(t, token).value;
    MarkerLenSound(t, token);
    MarkerLtOnlyFirst(t[..n], token);
    assert forall i :: 0 <= i < n ==> t[..n][i] == t[i];
  }

  /** The length of the marker that starts at position `i` of `s`, if one does. */
  function MarkerAt(s: string, i: nat, token: string): Option<nat>
    requires i <= |s|
  {
    MarkerLen(s[i..], token)
  }

  /** No marker for `token` starts anywhere in `s` (the empty tail included). */
  predicate NoMarkerIn(s: string, token: string) {
    forall i :: 0 <= i <= |s| ==> MarkerAt(s, i, token).None?
  }

  /** The leftmost position at or after `from` where a marker starts. */
  function FirstMarker(s: string, token: string, from: nat): (r: Option<nat>)
    requires from <= |s|
    ensures r.Some? ==> from <= r.value <= |s| && MarkerAt(s, r.value, token).Some?
    ensures r.Some? ==> forall i :: from <= i < r.value ==> MarkerAt(s, i, token).None?
    ensures r.None? ==> forall i :: from <= i <= |s| ==> MarkerAt(s, i, token).None?
    decreases |s| - from
  {
    if MarkerAt(s, from, token).Some? then Some(from)
    else if from == |s| then None
    else FirstMarker(s, token, from + 1)
  }

  /** The end of the marker that starts at `b`. */
  function MarkerEnd(s: string, b: nat, token: string): (e: nat)
    requires b <= |s| && MarkerAt(s, b, token).Some?
    ensures b < e <= |s|
  {
    b + MarkerAt(s, b, token).value
  }

  /** The pieces of `s[from..]` between markers, as `mb_split` returns them. */
  function SplitFrom(s: string, token: string, from: nat): (pieces: seq<string>)
    requires from <= |s|
    ensures |pieces| >= 1
    decreases |s| - from
  {
    match FirstMarker(s, token, from)
    case None => [s[from..]]
    case Some(b) => [s[from..b]] + SplitFrom(s, token, MarkerEnd(s, b, token))
  }

  function Split(s: string, token: string): (pieces: seq<string>)
    ensures |pieces| >= 1
  {
    SplitFrom(s, token, 0)
  }

  /** The number of positions of `s` at or after `from` where a marker starts. */
  function CountFrom(s: string, token: string, from: nat): nat
    requires from <= |s|
    decreases |s| - from
  {
    (if MarkerAt(s, from, token).Some? then 1 else 0)
    + (if from < |s| then CountFrom(s, token, from + 1) else 0)
  }

  function CountMarkers(s: string, token: string): nat {
    CountFrom(s, token, 0)
  }

  /** A marker is recognised the same way whatever text follows it. */
  lemma MarkerLocal(t: string, u: string, token: string, n: nat)
    requires ValidToken(token) && MarkerLen(t, token) == Some(n)
    requires n <= |u| && u[..n] == t[..n]
    ensures MarkerLen(u, token) == Some(n)
  {
    MarkerLenSound(t, token);
    MarkerLenComplete(u, token, n);
  }

  /**
   * Gluing on text that starts with `<` creates no marker that starts inside `x`:
   * such a marker would have to contain that `<`.
   */
  lemma PrefixNoMarker(x: string, y: string, token: string)
    requires ValidToken(token) && NoMarkerIn(x, token)
    requires y == [] || y[0] == '<'
    ensures forall i :: 0 <= i < |x| ==> MarkerAt(x + y, i, token).None?
  {
    forall i | 0 <= i < |x| ensures MarkerAt(x + y, i, token).None? {
      PrefixNoMarkerAt(x, y, token, i);
    }
  }

  lemma PrefixNoMarkerAt(x: string, y: string, token: string, i: nat)
    requires ValidToken(token) && NoMarkerIn(x, token)
    requires y == [] || y[0] == '<'
    requires i < |x|
    ensures MarkerAt(x + y, i, token).None?
  {
    var t := (x + y)[i..];
    if MarkerLen(t, token).Some? {
      var n := MarkerLen(t, token).value;
      MatchShape(t, token);
      if y != [] {
        assert t[|x| - i] == '<';
        MatchStopsAtLt(t, n, |x| - i);
      }
      assert x[i..][..n] == t[..n];
      MarkerLocal(t, x[i..], token, n);
      assert MarkerAt(x, i, token).Some?;
    }
  }

  lemma MatchStopsAtLt(t: string, n: nat, k: nat)
    requires 0 < k < |t| && t[k] == '<'
    requires n <= |t| && forall i :: 0 < i < n ==> t[i] != '<'
    ensures n <= k
  {
  }

  /** A marker starts with `<`. */
  lemma NoMarkerAtNonLt(s: string, i: nat, token: string)
    requires i < |s| && s[i] != '<'
    ensures MarkerAt(s, i, token).None?
  {
    assert s[i..][0] == s[i];
  }

  /** Markers in a tail are the markers of the whole text, shifted. */
  lemma MarkerAtShift(x: string, y: string, i: nat, token: string)
    requires i <= |y|
    ensures MarkerAt(x + y, |x| + i, token) == MarkerAt(y, i, token)
  {
    assert (x + y)[|x| + i..] == y[i..];
  }

  lemma MarkerAtSuffix(s: string, k: nat, i: nat, token: string)
    requires k + i <= |s|
    ensures MarkerAt(s, k + i, token) == MarkerAt(s[k..], i, token)
  {
    assert s[k..][i..] == s[k + i..];
  }

  /** A prefix of a text contains only markers that the text has at the same place. */
  lemma NoMarkerInPrefix(s: string, b: nat, token: string)
    requires ValidToken(token) && b <= |s|
    requires forall i :: 0 <= i < b ==> MarkerAt(s, i, token).None?
    ensures NoMarkerIn(s[..b], token)
  {
    forall i | 0 <= i <= b ensures MarkerAt(s[..b], i, token).None? {
      var t := s[..b][i..];
      if MarkerLen(t, token).Some? {
        var n := MarkerLen(t, token).value;
        assert s[i..][..n] == t[..n];
        MarkerLocal(t, s[i..], token, n);
        assert MarkerAt(s, i, token).Some?;
      }
    }
  }

  lemma NoMarkerInSuffix(s: string, k: nat, token: string)
    requires k <= |s| && NoMarkerIn(s, token)
    ensures NoMarkerIn(s[k..], token)
  {
    forall i | 0 <= i <= |s| - k ensures MarkerAt(s[k..], i, token).None? {
      assert s[k..][i..] == s[k + i..];
      assert MarkerAt(s, k + i, token).None?;
    }
  }

  /** The markers of `x + y`, when `y` starts with `<` or is empty, are those of `x` and of `y`. */
  lemma ConcatNoMarker(x: string, y: string, token: string)
    requires ValidToken(token) && NoMarkerIn(x, token) && NoMarkerIn(y, token)
    requires y == [] || y[0] == '<'
    ensures NoMarkerIn(x + y, token)
  {
    PrefixNoMarker(x, y, token);
    forall i | |x| <= i <= |x + y| ensures MarkerAt(x + y, i, token).None? {
      MarkerAtShift(x, y, i - |x|, token);
    }
  }

  /** A text that splits into exactly two pieces holds one marker, with no marker on either side. */
  lemma SplitTwoShape(s: string, token: string) returns (b: nat, e: nat)
    requires ValidToken(token) && |Split(s, token)| == 2
    ensures b < e <= |s| && MarkerAt(s, b, token) == Some(e - b)
    ensures Split(s, token) == [s[..b], s[e..]]
    ensures NoMarkerIn(s[..b], token) && NoMarkerIn(s[e..], token)
  {
    b := FirstMarker(s, token, 0).value;
    e := MarkerEnd(s, b, token);
    NoMarkerInPrefix(s, b, token);
    assert Split(s, token) == [s[..b]] + SplitFrom(s, token, e);
    assert FirstMarker(s, token, e).None?;
    forall i | 0 <= i <= |s| - e ensures MarkerAt(s[e..], i, token).None? {
      MarkerAtSuffix(s, e, i, token);
    }
  }

  /** Conversely, a text made of a marker-free prefix, one marker and a marker-free rest splits there. */
  lemma SplitTwoOf(x: string, y: string, z: string, token: string)
    requires ValidToken(token) && NoMarkerIn(x, token) && NoMarkerIn(z, token)
    requires MarkerLen(y + z, token) == Some(|y|)
    ensures Split(x + y + z, token) == [x, z]
  {
    var s := x + y + z;
    var e := |x| + |y|;
    assert s == x + (y + z);
    FirstMarkerOfConcat(x, y + z, token);
    assert MarkerEnd(s, |x|, token) == e by { assert s[|x|..] == y + z; }
    NoMarkerAfter(s, z, e, token);
    assert SplitFrom(s, token, e) == [s[e..]];
    assert s[..|x|] == x && s[e..] == z;
  }

  lemma FirstMarkerOfConcat(x: string, w: string, token: string)
    requires ValidToken(token) && NoMarkerIn(x, token) && MarkerLen(w, token).Some?
    ensures FirstMarker(x + w, token, 0) == Some(|x|)
  {
    assert w[0] == w[..4][0] == '<';
    PrefixNoMarker(x, w, token);
    assert (x + w)[|x|..] == w;
    assert MarkerAt(x + w, |x|, token).Some?;
  }

  lemma NoMarkerAfter(s: string, z: string, e: nat, token: string)
    requires e <= |s| && s[e..] == z && NoMarkerIn(z, token)
    ensures FirstMarker(s, token, e).None?
  {
    forall i | e <= i <= |s| ensures MarkerAt(s, i, token).None? {
      assert s[i..] == z[i - e..];
      assert MarkerAt(z, i - e, token).None?;
    }
  }

  /** Counting skips a stretch without markers. */
  lemma {:induction false} CountSkip(s: string, token: string, from: nat, b: nat)
    requires from <= b <= |s|
    requires forall i :: from <= i < b ==> MarkerAt(s, i, token).None?
    ensures CountFrom(s, token, from) == CountFrom(s, token, b)
    decreases b - from
  {
    if from < b {
      CountSkip(s, token, from + 1, b);
    }
  }

  /** No marker starts strictly inside another one. */
  lemma NoMarkerInsideMatch(s: string, b: nat, token: string)
    requires ValidToken(token) && b <= |s| && MarkerAt(s, b, token).Some?
    ensures forall i :: b < i < MarkerEnd(s, b, token) ==> MarkerAt(s, i, token).None?
  {
    MatchShape(s[b..], token);
    forall i | b < i < MarkerEnd(s, b, token) ensures MarkerAt(s, i, token).None? {
      assert s[i..][0] == s[b..][i - b];
    }
  }

  /** `mb_split` returns one piece more than there are markers. */
  lemma {:induction false} SplitFromCount(s: string, token: string, from: nat)
    requires ValidToken(token) && from <= |s|
    ensures |SplitFrom(s, token, from)| == 1 + CountFrom(s, token, from)
    decreases |s| - from
  {
    match FirstMarker(s, token, from)
    case None =>
      CountSkip(s, token, from, |s|);
    case Some(b) =>
      var e := MarkerEnd(s, b, token);
      CountSkip(s, token, from, b);
      NoMarkerInsideMatch(s, b, token);
      CountSkip(s, token, b + 1, e);
      SplitFromCount(s, token, e);
  }

  lemma SplitCount(s: string, token: string)
    requires ValidToken(token)
    ensures |Split(s, token)| == 1 + CountMarkers(s, token)
  {
    SplitFromCount(s, token, 0);
  }

  /** `<!-- TOKEN -->`, the form the job writes, is a marker. */
  lemma CanonicalIsMarker(token: string)
    requires ValidToken(token)
    ensures IsMarker("<!-- " + token + " -->", token)
  {
    CanonicalPieces(token);
    assert "<!--" + (" " + (token + " -->")) == "<!-- " + token + " -->";
  }

  /** The canonical marker, built piece by piece, matches the marker pattern. */
  lemma CanonicalPieces(token: string)
    ensures Matches("<!--" + (" " + (token + " -->")), MarkerPattern(token))
  {
    CanonicalTail(token);
    MatchesBlank(token + " -->", [Word(token), Blanks, Word("-->")]);
    MatchesWord("<!--", " " + (token + " -->"), [Blanks, Word(token), Blanks, Word("-->")]);
    assert [Word("<!--")] + [Blanks, Word(token), Blanks, Word("-->")] == MarkerPattern(token);
  }

  /** The part of the canonical marker from the token on. */
  lemma CanonicalTail(token: string)
    ensures Matches(token + " -->", [Word(token), Blanks, Word("-->")])
  {
    var pat := [Blanks, Word("-->")];
    CanonicalEnd();
    MatchesWord(token, " -->", pat);
    assert [Word(token)] + pat == [Word(token), Blanks, Word("-->")];
  }

  /** The part of the canonical marker after the token. */
  lemma CanonicalEnd()
    ensures Matches(" -->", [Blanks, Word("-->")])
  {
    MatchesWord("-->", "", []);
    assert [Word("-->")] + [] == [Word("-->")] && "-->" + "" == "-->";
    MatchesBlank("-->", [Word("-->")]);
    assert [Blanks] + [Word("-->")] == [Blanks, Word("-->")];
    assert " " + "-->" == " -->";
  }

  lemma MatchesWord(w: string, m: string, rest: seq<Piece>)
    requires Matches(m, rest)
    ensures Matches(w + m, [Word(w)] + rest)
  {
    assert ([Word(w)] + rest)[1..] == rest;
    assert (w + m)[..|w|] == w && (w + m)[|w|..] == m;
  }

  lemma MatchesBlank(m: string, rest: seq<Piece>)
    requires Matches(m, rest)
    ensures Matches(" " + m, [Blanks] + rest)
  {
    assert ([Blanks] + rest)[1..] == rest;
    assert (" " + m)[..1] == " " && (" " + m)[1..] == m;
    assert AllSpace((" " + m)[..1]);
  }

  lemma StartMarkerIsMarker()
    ensures IsMarker(StartMarker, StartToken)
  {
    TokensValid();
    CanonicalIsMarker(StartToken);
  }

  lemma EndMarkerIsMarker()
    ensures IsMarker(EndMarker, EndToken)
  {
    TokensValid();
    CanonicalIsMarker(EndToken);
  }

  /** The canonical start marker is a start marker, whatever follows it. */
  lemma StartMarkerFound(rest: string)
    ensures MarkerLen(StartMarker + rest, StartToken) == Some(|StartMarker|)
  {
    var t := StartMarker + rest;
    TokensValid();
    StartMarkerIsMarker();
    assert t[..|StartMarker|] == StartMarker;
    MarkerLenComplete(t, StartToken, |StartMarker|);
  }

  lemma EndMarkerFound(rest: string)
    ensures MarkerLen(EndMarker + rest, EndToken) == Some(|EndMarker|)
  {
    var t := EndMarker + rest;
    TokensValid();
    EndMarkerIsMarker();
    assert t[..|EndMarker|] == EndMarker;
    MarkerLenComplete(t, EndToken, |EndMarker|);
  }

  /** The canonical end marker holds no start marker, whatever follows it. */
  lemma NoStartInEndMarker(rest: string)
    requires NoMarkerIn(rest, StartToken)
    ensures NoMarkerIn(EndMarker + rest, StartToken)
  {
    var t := EndMarker + rest;
    assert t[..|EndMarker|] == EndMarker;
    EndMarkerIsNotStart(t);
    EndMarkerLtOnlyFirst();
    NoMarkerAfterHead(EndMarker, rest, StartToken);
  }

  /** The end marker holds `<` only as its first character. */
  lemma EndMarkerLtOnlyFirst()
    ensures forall i :: 0 < i < |EndMarker| ==> EndMarker[i] != '<'
  {
  }

  /**
   * A text holds no marker when none starts at its first character, its head has no other
   * `<`, and the rest holds none.
   */
  lemma NoMarkerAfterHead(head: string, rest: string, token: string)
    requires MarkerAt(head + rest, 0, token).None?
    requires forall i :: 0 < i < |head| ==> head[i] != '<'
    requires NoMarkerIn(rest, token)
    ensures NoMarkerIn(head + rest, token)
  {
    var t := head + rest;
    forall i | 0 < i < |head| ensures MarkerAt(t, i, token).None? {
      assert t[i] == head[i];
      NoMarkerAtNonLt(t, i, token);
    }
    forall i | |head| <= i <= |t| ensures MarkerAt(t, i, token).None? {
      MarkerAtShift(head, rest, i - |head|, token);
    }
  }

  lemma EndMarkerIsNotStart(t: string)
    requires |t| >= |EndMarker| && t[..|EndMarker|] == EndMarker
    ensures MarkerAt(t, 0, StartToken).None?
  {
    var pat := MarkerPattern(StartToken);
    assert t[..4] == "<!--" && t[4] == ' ' && t[5] == 'E' by {
      assert t[..4] == EndMarker[..4] && t[4] == EndMarker[4] && t[5] == EndMarker[5];
    }
    SkipSpacesExactly(t, 4, 1);
    assert t[5..5 + |StartToken|] != StartToken by { assert t[5..5 + |StartToken|][0] == 'E'; }
    assert MatchFrom(t, 5, pat[2..]) == None;
    assert MatchFrom(t, 4, pat[1..]) == None;
    assert MatchFrom(t, 0, pat) == None;
    assert t[0..] == t;
  }
}
