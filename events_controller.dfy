/**
 * The parts of the events controller that decide things: finding the web-site event address
 * in a free text, splitting the date properties of a scraped event page into the form fields,
 * and when the create form scrapes an event page at all.
 */
module EventsController {
  import opened Wrappers

  /** `\s` in a PCRE pattern without the Unicode flag: the six ASCII white-space characters. */
  predicate IsPcreSpace(c: char) {
    c == ' ' || c == '\t' || c == '\n' || c == '\U{000B}' || c == '\U{000C}' || c == '\r'
  }

  predicate NoSpace(s: string) {
    forall k :: 0 <= k < |s| ==> !IsPcreSpace(s[k])
  }

  /** One position of a pattern: a literal character, or an unescaped `.`. */
  datatype PatChar = Lit(c: char) | AnyChar

  /** `.` matches any character except a line feed. */
  predicate CharFits(c: char, p: PatChar) {
    match p
    case Lit(d) => c == d
    case AnyChar => c != '\n'
  }

  function Lits(s: string): seq<PatChar> {
    seq(|s|, i requires 0 <= i < |s| => Lit(s[i]))
  }

  /**
   * What follows `https?` in the two address patterns, up to the `[^\s]+` tail; the dots of
   * the host name are unescaped and so stand for any character.
   */
  function HostPath(path: string): seq<PatChar> {
    Lits("://www") + [AnyChar] + Lits("ub") + [AnyChar] + Lits("uio") + [AnyChar] + Lits("no/" + path)
  }

  /** `https?://www.ub.uio.no/om/aktuelt/arrangementer/[^\s]+`, the Norwegian event pages. */
  function NorwegianPath(): seq<PatChar> {
    HostPath("om/aktuelt/arrangementer/")
  }

  /** `https?://www.ub.uio.no/english/about/news-and-events/events/[^\s]+`, the English event pages. */
  function EnglishPath(): seq<PatChar> {
    HostPath("english/about/news-and-events/events/")
  }

  /** A path pattern of the shape above: it starts with `://`. */
  predicate ValidPath(path: seq<PatChar>) {
    |path| >= 3 && path[0] == Lit(':') && path[1] == Lit('/') && path[2] == Lit('/')
  }

  /** `m` fits the pattern positions `pat` one for one. */
  predicate Fits(m: string, pat: seq<PatChar>) {
    |m| == |pat| && forall k :: 0 <= k < |m| ==> CharFits(m[k], pat[k])
  }

  /** The text from `j` on starts with a fit of `pat`. */
  predicate FitsAt(t: string, j: nat, pat: seq<PatChar>) {
    j + |pat| <= |t| && forall k :: 0 <= k < |pat| ==> CharFits(t[j + k], pat[k])
  }

  /** `m` is `scheme`, then a fit of `path`, then at least one non-blank character and no blank. */
  predicate IsUrlMatchWith(m: string, scheme: string, path: seq<PatChar>) {
    |scheme| + |path| < |m| && m[..|scheme|] == scheme
    && Fits(m[|scheme|..|scheme| + |path|], path) && NoSpace(m[|scheme| + |path|..])
  }

  /** `m` is a whole match of `https?` followed by `path` and `[^\s]+`. */
  predicate IsUrlMatch(m: string, path: seq<PatChar>) {
    IsUrlMatchWith(m, "http", path) || IsUrlMatchWith(m, "https", path)
  }

  /** The end of the run of non-blank characters that starts at `k`. */
  function NonSpaceEnd(t: string, k: nat): (e: nat)
    requires k <= |t|
    ensures k <= e <= |t|
    ensures forall i :: k <= i < e ==> !IsPcreSpace(t[i])
    ensures e < |t| ==> IsPcreSpace(t[e])
    decreases |t| - k
  {
    if k < |t| && !IsPcreSpace(t[k]) then NonSpaceEnd(t, k + 1) else k
  }

  /**
   * The length of the match that starts at `i`, if one does. `https?` is tried with the `s`
   * first; the pattern goes on with `:`, so without it the match would fail, and the greedy
   * `[^\s]+` at the end takes every non-blank character it can.
   */
  function UrlMatchLen(t: string, i: nat, path: seq<PatChar>): (r: Option<nat>)
    requires i <= |t|
    ensures r.Some? ==> 4 < r.value && i + r.value <= |t|
  {
    if !(i + 4 <= |t| && t[i..i + 4] == "http") then None
    else
      var j := if i + 4 < |t| && t[i + 4] == 's' then i + 5 else i + 4;
      if !FitsAt(t, j, path) then None
      else
        var k := j + |path|;
        var e := NonSpaceEnd(t, k);
        if e == k then None else Some(e - i)
  }

  /** A match the matcher reports is a whole match that ends at a blank or at the end of the text. */
  lemma UrlMatchSound(t: string, i: nat, path: seq<PatChar>)
    requires i <= |t| && ValidPath(path) && UrlMatchLen(t, i, path).Some?
    ensures var n := UrlMatchLen(t, i, path).value;
      i + n <= |t| && IsUrlMatch(t[i..i + n], path) && (i + n == |t| || IsPcreSpace(t[i + n]))
  {
    var secure, e := UrlMatchEnd(t, i, path);
    var scheme := if secure then "https" else "http";
    SchemeSlice(t, i, secure);
    UrlMatchOfPieces(t, i, e, scheme, path);
  }

  /** `UrlMatchSound` for a match whose length is known. */
  lemma UrlMatchSoundAt(t: string, i: nat, n: nat, path: seq<PatChar>)
    requires i <= |t| && ValidPath(path) && UrlMatchLen(t, i, path) == Some(n)
    ensures i + n <= |t| && IsUrlMatch(t[i..i + n], path) && (i + n == |t| || IsPcreSpace(t[i + n]))
  {
    UrlMatchSound(t, i, path);
  }

  /** The steps the matcher takes to report a match at `i`: the scheme, the fit, and the end of the run. */
  lemma UrlMatchEnd(t: string, i: nat, path: seq<PatChar>) returns (secure: bool, e: nat)
    requires i <= |t| && UrlMatchLen(t, i, path).Some?
    ensures i + 4 <= |t| && t[i..i + 4] == "http" && secure == (i + 4 < |t| && t[i + 4] == 's')
    ensures var k := i + (if secure then 5 else 4) + |path|;
      FitsAt(t, i + (if secure then 5 else 4), path) && k < e == NonSpaceEnd(t, k)
    ensures UrlMatchLen(t, i, path) == Some(e - i)
  {
    secure := i + 4 < |t| && t[i + 4] == 's';
    e := NonSpaceEnd(t, i + (if secure then 5 else 4) + |path|);
  }

  /** A scheme, a fit of the path and a non-empty run of non-blanks make a whole match. */
  lemma UrlMatchOfPieces(t: string, i: nat, e: nat, scheme: string, path: seq<PatChar>)
    requires i + |scheme| + |path| < e <= |t| && t[i..i + |scheme|] == scheme
    requires FitsAt(t, i + |scheme|, path)
    requires forall q :: i + |scheme| + |path| <= q < e ==> !IsPcreSpace(t[q])
    ensures IsUrlMatchWith(t[i..e], scheme, path)
  {
    var j := i + |scheme|;
    var k := j + |path|;
    FitsSlice(t, j, path);
    NoSpaceSlice(t, k, e);
    UrlPieces(t, i, |scheme|, |path|, e);
  }

  /** The scheme the matcher takes at `i` is in the text there. */
  lemma SchemeSlice(t: string, i: nat, secure: bool)
    requires i + 4 <= |t| && t[i..i + 4] == "http"
    requires secure == (i + 4 < |t| && t[i + 4] == 's')
    ensures var scheme := if secure then "https" else "http";
      i + |scheme| <= |t| && t[i..i + |scheme|] == scheme
  {
    if secure {
      assert t[i..i + 5] == t[i..i + 4] + [t[i + 4]];
    }
  }

  lemma FitsSlice(t: string, j: nat, pat: seq<PatChar>)
    requires FitsAt(t, j, pat)
    ensures Fits(t[j..j + |pat|], pat)
  {
    forall q | 0 <= q < |pat| ensures CharFits(t[j..j + |pat|][q], pat[q]) {
      assert t[j..j + |pat|][q] == t[j + q];
    }
  }

  lemma NoSpaceSlice(t: string, k: nat, e: nat)
    requires k <= e <= |t| && forall q :: k <= q < e ==> !IsPcreSpace(t[q])
    ensures NoSpace(t[k..e])
  {
    forall q | 0 <= q < e - k ensures !IsPcreSpace(t[k..e][q]) {
      assert t[k..e][q] == t[k + q];
    }
  }

  /** The three pieces of the text from `i` to `e`, cut after `a` and after `a + b` characters. */
  lemma UrlPieces(t: string, i: nat, a: nat, b: nat, e: nat)
    requires i + a + b <= e <= |t|
    ensures t[i..e][..a] == t[i..i + a]
    ensures t[i..e][a..a + b] == t[i + a..i + a + b]
    ensures t[i..e][a + b..] == t[i + a + b..e]
  {
  }

  /** Every whole match that ends at a blank or at the end of the text is the one the matcher reports. */
  lemma UrlMatchComplete(t: string, i: nat, n: nat, path: seq<PatChar>)
    requires ValidPath(path) && i + n <= |t|
    requires IsUrlMatch(t[i..i + n], path) && (i + n == |t| || IsPcreSpace(t[i + n]))
    ensures UrlMatchLen(t, i, path) == Some(n)
  {
    var secure := IsUrlMatchWith(t[i..i + n], "https", path);
    var scheme := if secure then "https" else "http";
    PiecesOfUrlMatch(t, i, i + n, scheme, path);
    SchemeInText(t, i, scheme, path, secure);
    var k := i + |scheme| + |path|;
    NonSpaceEndIs(t, k, i + n);
  }

  /**
   * A match of any length at `i`, not only one that runs to a blank, makes the matcher report
   * a match there, one that extends it to the end of its run of non-blanks.
   */
  lemma AnyMatchFound(t: string, i: nat, n: nat, path: seq<PatChar>)
    requires ValidPath(path) && i + n <= |t| && IsUrlMatch(t[i..i + n], path)
    ensures UrlMatchLen(t, i, path).Some? && n <= UrlMatchLen(t, i, path).value
  {
    var e := ExtendToRun(t, i, n, path);
    UrlMatchComplete(t, i, e - i, path);
  }

  /** A match stays a match when its closing run is extended to the next blank or the end. */
  lemma ExtendToRun(t: string, i: nat, n: nat, path: seq<PatChar>) returns (e: nat)
    requires i + n <= |t| && IsUrlMatch(t[i..i + n], path)
    ensures i + n <= e <= |t| && IsUrlMatch(t[i..e], path) && (e == |t| || IsPcreSpace(t[e]))
  {
    var secure := IsUrlMatchWith(t[i..i + n], "https", path);
    var scheme := if secure then "https" else "http";
    PiecesOfUrlMatch(t, i, i + n, scheme, path);
    var k := i + |scheme| + |path|;
    e := NonSpaceEnd(t, i + n);
    assert forall q :: k <= q < e ==> !IsPcreSpace(t[q]);
    UrlMatchOfPieces(t, i, e, scheme, path);
  }

  /** The pieces of a whole match, read in the text. */
  lemma PiecesOfUrlMatch(t: string, i: nat, e: nat, scheme: string, path: seq<PatChar>)
    requires i <= e <= |t| && IsUrlMatchWith(t[i..e], scheme, path)
    ensures i + |scheme| + |path| < e && t[i..i + |scheme|] == scheme
    ensures FitsAt(t, i + |scheme|, path)
    ensures forall q :: i + |scheme| + |path| <= q < e ==> !IsPcreSpace(t[q])
  {
    var j := i + |scheme|;
    var k := j + |path|;
    UrlPieces(t, i, |scheme|, |path|, e);
    FitsInText(t, j, path);
    NoSpaceInText(t, k, e);
  }

  /** A match's scheme is read back by the matcher: `https` when the `s` is there, `http` when `:` follows. */
  lemma SchemeInText(t: string, i: nat, scheme: string, path: seq<PatChar>, secure: bool)
    requires ValidPath(path) && scheme == (if secure then "https" else "http")
    requires i + |scheme| <= |t| && t[i..i + |scheme|] == scheme && FitsAt(t, i + |scheme|, path)
    ensures i + 4 <= |t| && t[i..i + 4] == "http"
    ensures secure == (i + 4 < |t| && t[i + 4] == 's')
  {
    assert t[i..i + 4] == t[i..i + |scheme|][..4];
    if secure {
      assert t[i + 4] == t[i..i + |scheme|][4];
    } else {
      assert CharFits(t[i + 4], path[0]);
    }
  }

  lemma FitsInText(t: string, j: nat, pat: seq<PatChar>)
    requires j + |pat| <= |t| && Fits(t[j..j + |pat|], pat)
    ensures FitsAt(t, j, pat)
  {
    forall q | 0 <= q < |pat| ensures CharFits(t[j + q], pat[q]) {
      assert t[j + q] == t[j..j + |pat|][q];
    }
  }

  lemma NoSpaceInText(t: string, k: nat, e: nat)
    requires k <= e <= |t| && NoSpace(t[k..e])
    ensures forall q :: k <= q < e ==> !IsPcreSpace(t[q])
  {
    forall q | k <= q < e ensures !IsPcreSpace(t[q]) {
      assert t[q] == t[k..e][q - k];
    }
  }

  lemma {:induction false} NonSpaceEndIs(t: string, k: nat, e: nat)
    requires k <= e <= |t|
    requires forall q :: k <= q < e ==> !IsPcreSpace(t[q])
    requires e == |t| || IsPcreSpace(t[e])
    ensures NonSpaceEnd(t, k) == e
    decreases e - k
  {
    if k < e {
      NonSpaceEndIs(t, k + 1, e);
    }
  }

  /** The leftmost match at or after `from`, as its start and length. */
  function FindUrl(t: string, path: seq<PatChar>, from: nat): (r: Option<(nat, nat)>)
    requires from <= |t|
    ensures r.None? <==> forall i :: from <= i <= |t| ==> UrlMatchLen(t, i, path).None?
    ensures r.Some? ==> from <= r.value.0 <= |t| && UrlMatchLen(t, r.value.0, path) == Some(r.value.1)
    ensures r.Some? ==> forall i :: from <= i < r.value.0 ==> UrlMatchLen(t, i, path).None?
    decreases |t| - from
  {
    var m := UrlMatchLen(t, from, path);
    if m.Some? then Some((from, m.value))
    else if from == |t| then None
    else
      var r := FindUrl(t, path, from + 1);
      NoUrlFrom(t, path, from, |t| + 1);
      if r.Some? then NoUrlFrom(t, path, from, r.value.0); r else r
  }

  /** No match at `from` moves the search one place on without losing any. */
  lemma NoUrlFrom(t: string, path: seq<PatChar>, from: nat, hi: nat)
    requires from < hi <= |t| + 1 && UrlMatchLen(t, from, path).None?
    ensures (forall i :: from <= i < hi ==> UrlMatchLen(t, i, path).None?) <==>
      (forall i :: from + 1 <= i < hi ==> UrlMatchLen(t, i, path).None?)
  {
  }

  /** The captured text of the leftmost match, if there is one. */
  function FirstUrl(t: string, path: seq<PatChar>): Option<string> {
    var r := FindUrl(t, path, 0);
    if r.None? then None else Some(t[r.value.0..r.value.0 + r.value.1])
  }

  /** The address of a web-site event page in `text`: a Norwegian one if there is any, else an English one. */
  function VortexUrlFromText(text: string): Option<string> {
    var norwegian := FirstUrl(text, NorwegianPath());
    if norwegian.Some? then norwegian else FirstUrl(text, EnglishPath())
  }

  /** A text that is, in its entirety, a match of one of the two address patterns. */
  predicate IsVortexEventsUrl(u: string) {
    IsUrlMatch(u, NorwegianPath()) || IsUrlMatch(u, EnglishPath())
  }

  /** The pattern positions of `HostPath(p)`, piece by piece. */
  lemma HostPathAt(p: string, q: nat)
    requires q < |HostPath(p)|
    ensures q < 6 ==> HostPath(p)[q] == Lit("://www"[q])
    ensures q == 6 || q == 9 || q == 13 ==> HostPath(p)[q] == AnyChar
    ensures 7 <= q < 9 ==> HostPath(p)[q] == Lit("ub"[q - 7])
    ensures 10 <= q < 13 ==> HostPath(p)[q] == Lit("uio"[q - 10])
    ensures 14 <= q ==> HostPath(p)[q] == Lit(("no/" + p)[q - 14])
  {
    var a := Lits("://www") + [AnyChar];
    var b := a + Lits("ub") + [AnyChar];
    var c := b + Lits("uio") + [AnyChar];
    assert HostPath(p) == c + Lits("no/" + p);
    assert |a| == 7 && |b| == 10 && |c| == 14;
    if q < 14 {
      assert HostPath(p)[q] == c[q];
      if q < 10 {
        assert c[q] == b[q];
        if q < 7 { assert b[q] == a[q]; }
      }
    }
  }

  /** The literal characters of a path pattern are not blanks. */
  predicate LitsNonBlank(path: seq<PatChar>) {
    forall q :: 0 <= q < |path| && path[q].Lit? ==> !IsPcreSpace(path[q].c)
  }

  /** The unescaped dots of a path pattern are those of `www.ub.uio.no`. */
  predicate DotsInHost(path: seq<PatChar>) {
    forall q :: 0 <= q < |path| && path[q].AnyChar? ==> q == 6 || q == 9 || q == 13
  }

  lemma HostPathFacts(p: string)
    requires NoSpace(p)
    ensures ValidPath(HostPath(p)) && LitsNonBlank(HostPath(p)) && DotsInHost(HostPath(p))
  {
    var path := HostPath(p);
    HostPathAt(p, 0);
    HostPathAt(p, 1);
    HostPathAt(p, 2);
    forall q | 0 <= q < |path| ensures (path[q].Lit? ==> !IsPcreSpace(path[q].c))
      && (path[q].AnyChar? ==> q == 6 || q == 9 || q == 13)
    {
      HostPathAt(p, q);
      if 14 <= q {
        assert q - 14 < 3 || ("no/" + p)[q - 14] == p[q - 17];
      }
    }
  }

  lemma NorwegianValid()
    ensures ValidPath(NorwegianPath()) && LitsNonBlank(NorwegianPath()) && DotsInHost(NorwegianPath())
  {
    HostPathFacts("om/aktuelt/arrangementer/");
  }

  lemma EnglishValid()
    ensures ValidPath(EnglishPath()) && LitsNonBlank(EnglishPath()) && DotsInHost(EnglishPath())
  {
    HostPathFacts("english/about/news-and-events/events/");
  }

  /** The first match of a pattern is a whole match at `i` that ends at a blank or at the end. */
  lemma FirstUrlShape(t: string, path: seq<PatChar>) returns (i: nat, n: nat)
    requires ValidPath(path) && FirstUrl(t, path).Some?
    ensures i + n <= |t| && FirstUrl(t, path) == Some(t[i..i + n])
    ensures IsUrlMatch(t[i..i + n], path) && (i + n == |t| || IsPcreSpace(t[i + n]))
  {
    i, n := FirstUrlFound(t, path);
    UrlMatchSoundAt(t, i, n, path);
  }

  /** Where the leftmost match starts and how long the matcher says it is. */
  lemma FirstUrlFound(t: string, path: seq<PatChar>) returns (i: nat, n: nat)
    requires FirstUrl(t, path).Some?
    ensures i <= |t| && UrlMatchLen(t, i, path) == Some(n)
    ensures i + n <= |t| && FirstUrl(t, path) == Some(t[i..i + n])
  {
    var r := FindUrl(t, path, 0);
    i, n := r.value.0, r.value.1;
  }

  /** The first match starting at `i` is reported when no match starts before it. */
  lemma FirstUrlAt(t: string, path: seq<PatChar>, i: nat)
    requires i <= |t| && UrlMatchLen(t, i, path).Some?
    requires forall j :: 0 <= j < i ==> UrlMatchLen(t, j, path).None?
    ensures FirstUrl(t, path) == Some(t[i..i + UrlMatchLen(t, i, path).value])
  {
    var r := FindUrl(t, path, 0);
    assert UrlMatchLen(t, i, path).Some?;
    assert r.Some?;
    var j := r.value.0;
    assert !(i < j);
    assert UrlMatchLen(t, j, path).Some?;
    assert j == i;
  }

  /** Nothing is found exactly when neither pattern matches anywhere in the text. */
  lemma NoUrl(text: string)
    ensures VortexUrlFromText(text).None? <==>
      forall i :: 0 <= i <= |text| ==>
        UrlMatchLen(text, i, NorwegianPath()).None? && UrlMatchLen(text, i, EnglishPath()).None?
  {
  }

  /**
   * The Norwegian pattern wins: whenever it matches somewhere, the result is its leftmost
   * match, however early an English address comes.
   */
  lemma NorwegianFirst(text: string, i: nat)
    requires i <= |text| && UrlMatchLen(text, i, NorwegianPath()).Some?
    requires forall j :: 0 <= j < i ==> UrlMatchLen(text, j, NorwegianPath()).None?
    ensures VortexUrlFromText(text) == Some(text[i..i + UrlMatchLen(text, i, NorwegianPath()).value])
  {
    FirstUrlAt(text, NorwegianPath(), i);
    NorwegianFound(text, text[i..i + UrlMatchLen(text, i, NorwegianPath()).value]);
  }

  /**
   * The search starts where the leftmost match of `preg_match` starts: no match of any length
   * starts before the position it reports.
   */
  lemma FirstUrlIsLeftmost(t: string, path: seq<PatChar>, j: nat, m: nat)
    requires ValidPath(path) && j + m <= |t| && IsUrlMatch(t[j..j + m], path)
    ensures FindUrl(t, path, 0).Some? && FindUrl(t, path, 0).value.0 <= j
  {
    AnyMatchFound(t, j, m, path);
  }

  /**
   * With no Norwegian match anywhere, the result is the leftmost English match, as the second
   * `preg_match` finds it.
   */
  lemma EnglishFallback(text: string, i: nat)
    requires forall j :: 0 <= j <= |text| ==> UrlMatchLen(text, j, NorwegianPath()).None?
    requires i <= |text| && UrlMatchLen(text, i, EnglishPath()).Some?
    requires forall j :: 0 <= j < i ==> UrlMatchLen(text, j, EnglishPath()).None?
    ensures VortexUrlFromText(text) == Some(text[i..i + UrlMatchLen(text, i, EnglishPath()).value])
  {
    NoFirstUrl(text, NorwegianPath());
    FirstUrlAt(text, EnglishPath(), i);
    EnglishFound(text, text[i..i + UrlMatchLen(text, i, EnglishPath()).value]);
  }

  /** A pattern that matches nowhere has no leftmost match. */
  lemma NoFirstUrl(t: string, path: seq<PatChar>)
    requires forall j :: 0 <= j <= |t| ==> UrlMatchLen(t, j, path).None?
    ensures FirstUrl(t, path).None?
  {
  }

  /** With no Norwegian address, an English address found is the result. */
  lemma EnglishFound(text: string, u: string)
    requires FirstUrl(text, NorwegianPath()).None? && FirstUrl(text, EnglishPath()) == Some(u)
    ensures VortexUrlFromText(text) == Some(u)
  {
  }

  /** A Norwegian address found is the result. */
  lemma NorwegianFound(text: string, u: string)
    requires FirstUrl(text, NorwegianPath()) == Some(u)
    ensures VortexUrlFromText(text) == Some(u)
  {
  }

  /** The length of the `http` or `https` a match starts with. */
  function SchemeLen(u: string): nat {
    if |u| > 4 && u[4] == 's' then 5 else 4
  }

  /** `u` holds a blank only where one of the three unescaped dots of the host name stands. */
  predicate BlanksOnlyAtDots(u: string) {
    forall k :: 0 <= k < |u| && IsPcreSpace(u[k]) ==>
      k - SchemeLen(u) == 6 || k - SchemeLen(u) == 9 || k - SchemeLen(u) == 13
  }

  /**
   * `u` stands in `t` at `i`, runs to a blank or to the end of `t`, starts with `http://` or
   * `https://`, and holds a blank only where a dot of the host name stands.
   */
  predicate FoundAt(t: string, u: string, i: nat) {
    ((|u| >= 7 && u[..7] == "http://") || (|u| >= 8 && u[..8] == "https://"))
    && BlanksOnlyAtDots(u)
    && i + |u| <= |t| && t[i..i + |u|] == u
    && (i + |u| == |t| || IsPcreSpace(t[i + |u|]))
  }

  /**
   * A found address is a piece of the text, starting at `i`, that matches one of the two
   * patterns whole: it starts with `http://` or `https://`, runs to the next blank or the end
   * of the text, and holds a blank only where a dot of the host name stands.
   */
  lemma UrlShape(text: string) returns (i: nat)
    requires VortexUrlFromText(text).Some?
    ensures IsVortexEventsUrl(VortexUrlFromText(text).value)
    ensures FoundAt(text, VortexUrlFromText(text).value, i)
  {
    if FirstUrl(text, NorwegianPath()).Some? {
      NorwegianValid();
      i := FoundShape(text, NorwegianPath());
    } else {
      EnglishValid();
      i := FoundShape(text, EnglishPath());
    }
  }

  /** `UrlShape` for one pattern. */
  lemma FoundShape(t: string, path: seq<PatChar>) returns (i: nat)
    requires ValidPath(path) && LitsNonBlank(path) && DotsInHost(path) && FirstUrl(t, path).Some?
    ensures IsUrlMatch(FirstUrl(t, path).value, path)
    ensures FoundAt(t, FirstUrl(t, path).value, i)
  {
    var n;
    i, n := FirstUrlShape(t, path);
    var u := t[i..i + n];
    assert |u| == n;
    UrlMatchShape(u, path);
  }

  /** A whole match starts with the scheme and `://`, and is blank only at the dots of the host name. */
  lemma UrlMatchShape(u: string, path: seq<PatChar>)
    requires ValidPath(path) && LitsNonBlank(path) && DotsInHost(path) && IsUrlMatch(u, path)
    ensures u[..7] == "http://" || u[..8] == "https://"
    ensures BlanksOnlyAtDots(u)
  {
    var scheme := if IsUrlMatchWith(u, "https", path) then "https" else "http";
    assert IsUrlMatchWith(u, scheme, path);
    var s := |scheme|;
    var mid := u[s..s + |path|];
    assert u[s] == mid[0] == ':' && u[s + 1] == mid[1] == '/' && u[s + 2] == mid[2] == '/';
    assert u[..s] == scheme;
    if scheme == "https" {
      assert u[4] == u[..s][4] == 's';
      assert u[..8] == u[..5] + [u[5], u[6], u[7]];
    } else {
      assert u[..7] == u[..4] + [u[4], u[5], u[6]];
    }
    assert SchemeLen(u) == s;
    OutsidePathNonBlank(u, scheme, path);
    forall k | 0 <= k < |u| && IsPcreSpace(u[k]) ensures k - s == 6 || k - s == 9 || k - s == 13 {
      if s <= k < s + |path| {
        assert u[k] == mid[k - s];
        assert CharFits(mid[k - s], path[k - s]);
      }
    }
  }

  /** The scheme and the closing run of a whole match hold no blank. */
  lemma OutsidePathNonBlank(u: string, scheme: string, path: seq<PatChar>)
    requires IsUrlMatchWith(u, scheme, path) && (scheme == "http" || scheme == "https")
    ensures forall k :: 0 <= k < |u| && !(|scheme| <= k < |scheme| + |path|) ==> !IsPcreSpace(u[k])
  {
    var s := |scheme|;
    forall k | 0 <= k < |u| && !(s <= k < s + |path|) ensures !IsPcreSpace(u[k]) {
      if k < s {
        assert u[k] == u[..s][k];
      } else {
        assert u[k] == u[s + |path|..][k - s - |path|];
      }
    }
  }

  /** Whether either address pattern matches somewhere in `text`. */
  predicate HasEventUrl(text: string) {
    exists i :: 0 <= i <= |text| &&
      (UrlMatchLen(text, i, NorwegianPath()).Some? || UrlMatchLen(text, i, EnglishPath()).Some?)
  }

  /** A found address always matches one of the two patterns whole. */
  lemma FoundIsEventsUrl(text: string)
    requires VortexUrlFromText(text).Some?
    ensures IsVortexEventsUrl(VortexUrlFromText(text).value)
  {
    var _ := UrlShape(text);
  }

  /** The texts whose characters stand at the positions of `HostPath(p)`. */
  function HostText(d1: char, d2: char, d3: char, p: string): string {
    "://www" + [d1] + "ub" + [d2] + "uio" + [d3] + "no/" + p
  }

  /** Any three characters other than a line feed can stand for the dots of the host name. */
  lemma HostTextFits(d1: char, d2: char, d3: char, p: string)
    requires d1 != '\n' && d2 != '\n' && d3 != '\n'
    ensures Fits(HostText(d1, d2, d3, p), HostPath(p))
  {
    var h := HostText(d1, d2, d3, p);
    var a := "://www" + [d1];
    var b := a + "ub" + [d2];
    var c := b + "uio" + [d3];
    assert h == c + ("no/" + p);
    assert |a| == 7 && |b| == 10 && |c| == 14;
    forall q | 0 <= q < |h| ensures CharFits(h[q], HostPath(p)[q]) {
      HostPathAt(p, q);
      if q < 14 {
        assert h[q] == c[q];
        if q < 10 {
          assert c[q] == b[q];
          if q < 7 { assert b[q] == a[q]; }
        }
      }
    }
  }

  /** An address whose host name has blanks where its dots belong: `http://www ub uio no/om/aktuelt/arrangementer/x`. */
  function LooseExample(): string {
    "http" + HostText(' ', ' ', ' ', "om/aktuelt/arrangementer/") + "x"
  }

  /**
   * The dots of the host name are loose: a text with blanks in their place is accepted whole,
   * blanks included.
   */
  lemma LooseDots()
    ensures VortexUrlFromText(LooseExample()) == Some(LooseExample())
  {
    var t := LooseExample();
    var path := NorwegianPath();
    NorwegianValid();
    LooseExampleMatches();
    UrlMatchComplete(t, 0, |t|, path);
    FirstUrlAt(t, path, 0);
    assert t[0..|t|] == t;
  }

  lemma LooseExampleMatches()
    ensures IsUrlMatchWith(LooseExample(), "http", NorwegianPath())
  {
    var t := LooseExample();
    var path := NorwegianPath();
    var host := HostText(' ', ' ', ' ', "om/aktuelt/arrangementer/");
    HostTextFits(' ', ' ', ' ', "om/aktuelt/arrangementer/");
    assert |host| == |path|;
    assert t[..4] == "http" && t[4..4 + |path|] == host && t[4 + |path|..] == "x";
  }

  /** `explode(' ', s)`: the pieces of `s` between its spaces, at least one. */
  function Explode(s: string): (r: seq<string>)
    ensures |r| >= 1
    ensures forall k :: 0 <= k < |r| ==> ' ' !in r[k]
  {
    if s == [] then [""]
    else
      var rest := Explode(s[1..]);
      if s[0] == ' ' then [""] + rest else [[s[0]] + rest[0]] + rest[1..]
  }

  /** `implode(' ', ps)`. */
  function Join(ps: seq<string>): string
    requires |ps| >= 1
  {
    if |ps| == 1 then ps[0] else ps[0] + " " + Join(ps[1..])
  }

  /** Joining the pieces with spaces gives the text back. */
  lemma {:induction false} JoinExplode(s: string)
    ensures Join(Explode(s)) == s
  {
    if s != [] {
      var rest := Explode(s[1..]);
      JoinExplode(s[1..]);
      if s[0] == ' ' {
        assert ([""] + rest)[1..] == rest;
      } else {
        var r := Explode(s);
        assert r[0] == [s[0]] + rest[0];
        if |rest| == 1 {
          assert s == [s[0]] + s[1..];
        } else {
          assert r[1..] == rest[1..];
          assert Join(rest) == rest[0] + " " + Join(rest[1..]);
          assert s == [s[0]] + s[1..];
        }
      }
    }
  }

  /** Space-free pieces joined with spaces are cut back into the same pieces. */
  lemma {:induction false} ExplodeJoin(ps: seq<string>)
    requires |ps| >= 1 && forall k :: 0 <= k < |ps| ==> ' ' !in ps[k]
    ensures Explode(Join(ps)) == ps
    decreases |ps|
  {
    if |ps| == 1 {
      ExplodeWord(ps[0], "");
      assert ps[0] + "" == ps[0];
    } else {
      var tail := Join(ps[1..]);
      ExplodeJoin(ps[1..]);
      assert (" " + tail)[1..] == tail && (" " + tail)[0] == ' ';
      assert Explode(" " + tail) == [""] + ps[1..];
      ExplodeWord(ps[0], " " + tail);
      assert ps[0] + " " + tail == ps[0] + (" " + tail);
      assert ps[0] + "" == ps[0];
      assert ps == [ps[0]] + ps[1..];
    }
  }

  /** A space-free start joins the first piece of what follows it. */
  lemma {:induction false} ExplodeWord(w: string, s: string)
    requires ' ' !in w
    ensures Explode(w + s) == [w + Explode(s)[0]] + Explode(s)[1..]
    decreases |w|
  {
    if w != [] {
      ExplodeWord(w[1..], s);
      assert (w + s)[1..] == w[1..] + s;
      assert w[0] in w;
      assert w + s != [] && (w + s)[0] == w[0] != ' ';
      var rest := Explode(w[1..] + s);
      assert rest[0] == w[1..] + Explode(s)[0] && rest[1..] == Explode(s)[1..];
      assert Explode(w + s) == [[w[0]] + rest[0]] + rest[1..];
      assert [w[0]] + (w[1..] + Explode(s)[0]) == w + Explode(s)[0];
    } else {
      assert w + s == s && w + Explode(s)[0] == Explode(s)[0];
      assert Explode(s) == [Explode(s)[0]] + Explode(s)[1..];
    }
  }

  /** A text has a second piece exactly when it holds a space. */
  lemma {:induction false} ExplodeHasSecond(s: string)
    ensures |Explode(s)| >= 2 <==> ' ' in s
  {
    if s != [] {
      ExplodeHasSecond(s[1..]);
      assert s == [s[0]] + s[1..];
    }
  }

  /** The form fields the date properties of an event page write. */
  function DateKeys(startDate: Option<string>, endDate: Option<string>): set<string> {
    (if startDate.Some? then {"start_date", "p1_start_time"} else {})
    + (if endDate.Some? then {"p1_end_time"} else {})
  }

  /** The date property whose time field was read past the end of its pieces. */
  datatype DateError = NoTimeIn(property: string)

  /** Whether a date property is absent or has a second piece to read. */
  predicate HasTimeOrAbsent(date: Option<string>) {
    date.None? || |Explode(date.value)| >= 2
  }

  /**
   * Copies the date properties of a scraped event page into the form data: the date and the
   * start time from the two first fields of `start-date`, the end time from the second field of
   * `end-date`. A missing property leaves its fields as they were. Reading a second field that
   * is not there raises PHP's undefined-offset notice, which the framework turns into an
   * exception: the request fails, and that is the `Failure`.
   */
  method ApplyVortexDates(data: map<string, Option<string>>, startDate: Option<string>, endDate: Option<string>)
    returns (out: Result<map<string, Option<string>>, DateError>)
    ensures !HasTimeOrAbsent(startDate) ==> out == Failure(NoTimeIn("start-date"))
    ensures HasTimeOrAbsent(startDate) && !HasTimeOrAbsent(endDate) ==> out == Failure(NoTimeIn("end-date"))
    ensures out.Success? <==> HasTimeOrAbsent(startDate) && HasTimeOrAbsent(endDate)
    ensures out.Success? ==> out.value.Keys == data.Keys + DateKeys(startDate, endDate)
    ensures out.Success? && startDate.Some? ==>
      out.value["start_date"] == Some(Explode(startDate.value)[0])
      && out.value["p1_start_time"] == Some(Explode(startDate.value)[1])
    ensures out.Success? && endDate.Some? ==> out.value["p1_end_time"] == Some(Explode(endDate.value)[1])
    ensures out.Success? ==>
      forall k :: k in data && k !in DateKeys(startDate, endDate) ==> out.value[k] == data[k]
  {
    var fields := data;
    if startDate.Some? {
      var dts := Explode(startDate.value);
      fields := fields["start_date" := Some(dts[0])];
      if |dts| < 2 {
        return Failure(NoTimeIn("start-date"));
      }
      fields := fields["p1_start_time" := Some(dts[1])];
    }
    if endDate.Some? {
      var dts := Explode(endDate.value);
      if |dts| < 2 {
        return Failure(NoTimeIn("end-date"));
      }
      fields := fields["p1_end_time" := Some(dts[1])];
    }
    out := Success(fields);
  }

  /** A date property without a space has no time field, so the request fails on it. */
  lemma DateWithoutTimeFails(date: string)
    requires ' ' !in date
    ensures !HasTimeOrAbsent(Some(date))
  {
    ExplodeHasSecond(date);
  }

  /**
   * A property `DATE TIME ...` made of space-free fields gives the date as the first piece and
   * the time as the second.
   */
  lemma DateTimeFields(fields: seq<string>)
    requires |fields| >= 2 && forall k :: 0 <= k < |fields| ==> ' ' !in fields[k]
    ensures HasTimeOrAbsent(Some(Join(fields)))
    ensures Explode(Join(fields))[0] == fields[0] && Explode(Join(fields))[1] == fields[1]
  {
    ExplodeJoin(fields);
  }

  /** What a request to the create form asks to prefill from. */
  datatype CreateRequest = CreateRequest(fromRecording: Option<string>, fromVortex: Option<string>)

  /** The address the create form scrapes for a given text, if it was given and holds one. */
  function ScrapeTarget(text: Option<string>): (r: Option<string>)
    ensures r.Some? <==> text.Some? && HasEventUrl(text.value)
    ensures r.Some? ==> r == VortexUrlFromText(text.value) && IsVortexEventsUrl(r.value)
  {
    if text.None? then None
    else
      NoUrl(text.value);
      var u := VortexUrlFromText(text.value);
      if u.Some? then (FoundIsEventsUrl(text.value); u) else None
  }

  /**
   * What the scraper reads of an event page: whether it has all three of the `title`, `content`
   * and `location` properties it reads unguarded, and its `start-date` and `end-date` properties.
   */
  datatype EventPage = EventPage(hasTextProperties: bool, startDate: Option<string>, endDate: Option<string>)

  /**
   * Scraping the page ends the whole request: the fetch failed (the `die`), a text property is
   * missing (reading it raises a notice), or a date property has no time piece (the failure of
   * `ApplyVortexDates`).
   */
  predicate ScrapeEnds(page: Option<EventPage>) {
    || page.None?
    || !page.value.hasTextProperties
    || !HasTimeOrAbsent(page.value.startDate)
    || !HasTimeOrAbsent(page.value.endDate)
  }

  /** The request names a recording that does not exist, so `findOrFail` ends it. */
  predicate UnknownRecording(req: CreateRequest, descriptionOf: string -> Option<string>) {
    req.fromRecording.Some? && descriptionOf(req.fromRecording.value).None?
  }

  /**
   * The event pages the create form scrapes, in order: the address found in the recording's
   * description, then the one found in the `from_vortex` text. A page is scraped only when an
   * address was found, and the second only when scraping the first did not end the request;
   * no page is scraped when the request names a recording that does not exist.
   * `descriptionOf` gives the description of the recording with an id (empty when it has none),
   * `None` when no recording has that id; `fetch` gives the page at an address, `None` when it
   * cannot be fetched.
   */
  function ScrapedPages(req: CreateRequest, descriptionOf: string -> Option<string>, fetch: string -> Option<EventPage>): (r: seq<string>)
    ensures UnknownRecording(req, descriptionOf) ==> r == []
    ensures !UnknownRecording(req, descriptionOf) ==>
      var fromRecording := req.fromRecording.Some? && HasEventUrl(descriptionOf(req.fromRecording.value).value);
      var fromVortex := req.fromVortex.Some? && HasEventUrl(req.fromVortex.value);
      && (fromRecording ==> |r| >= 1 && Some(r[0]) == VortexUrlFromText(descriptionOf(req.fromRecording.value).value))
      && (fromRecording && ScrapeEnds(fetch(r[0])) ==> |r| == 1)
      && (|r| == (if fromRecording then 1 else 0)
          + (if fromVortex && !(fromRecording && ScrapeEnds(fetch(r[0]))) then 1 else 0))
      && (fromVortex && !(fromRecording && ScrapeEnds(fetch(r[0]))) ==>
          Some(r[|r| - 1]) == VortexUrlFromText(req.fromVortex.value))
    ensures forall k :: 0 <= k < |r| - 1 ==> !ScrapeEnds(fetch(r[k]))
    ensures forall k :: 0 <= k < |r| ==> IsVortexEventsUrl(r[k])
  {
    if UnknownRecording(req, descriptionOf) then []
    else
      var description := if req.fromRecording.Some? then descriptionOf(req.fromRecording.value) else None;
      ScrapeInOrder(ScrapeTarget(description), ScrapeTarget(req.fromVortex), fetch)
  }

  /** The pages scraped for the two targets: the first, then the second unless the first ends the request. */
  function ScrapeInOrder(first: Option<string>, second: Option<string>, fetch: string -> Option<EventPage>): (r: seq<string>)
    ensures first.Some? ==> |r| >= 1 && r[0] == first.value
    ensures first.Some? && ScrapeEnds(fetch(first.value)) ==> |r| == 1
    ensures |r| == (if first.Some? then 1 else 0)
      + (if second.Some? && !(first.Some? && ScrapeEnds(fetch(first.value))) then 1 else 0)
    ensures second.Some? && !(first.Some? && ScrapeEnds(fetch(first.value))) ==> r[|r| - 1] == second.value
    ensures forall k :: 0 <= k < |r| - 1 ==> !ScrapeEnds(fetch(r[k]))
    ensures forall k :: 0 <= k < |r| ==> Some(r[k]) == first || Some(r[k]) == second
  {
    if first.Some? && ScrapeEnds(fetch(first.value)) then [first.value]
    else (if first.Some? then [first.value] else []) + (if second.Some? then [second.value] else [])
  }

  /**
   * A recording whose description points at a page with a `start-date` but no time: the
   * request ends after that page, whatever the `from_vortex` text holds.
   */
  lemma DateWithoutTimeStopsScraping(req: CreateRequest, descriptionOf: string -> Option<string>,
                                     fetch: string -> Option<EventPage>, u: string, hasText: bool, date: string, endDate: Option<string>)
    requires req.fromRecording.Some? && descriptionOf(req.fromRecording.value).Some?
    requires VortexUrlFromText(descriptionOf(req.fromRecording.value).value) == Some(u)
    requires fetch(u) == Some(EventPage(hasText, Some(date), endDate)) && ' ' !in date
    ensures ScrapedPages(req, descriptionOf, fetch) == [u]
  {
    NoUrl(descriptionOf(req.fromRecording.value).value);
    DateWithoutTimeFails(date);
  }
}
