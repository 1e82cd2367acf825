/**
 * The page merge of the regeneration job: the remote page is cut at the start and end
 * markers, each of which must occur exactly once, and the new fragment replaces what
 * lies between them, framed by the canonical markers.
 */
module PageMerge {
  import opened Wrappers
  import opened Markers

  /** The two `RuntimeException`s of the job: a marker is missing or occurs more than once. */
  datatype MarkerError = StartMarkerNotUnique | EndMarkerNotUnique

  /** The page body after merging `html` into `content`, or the marker error. */
  function Merge(content: string, html: string): Result<string, MarkerError> {
    var spl := Split(content, StartToken);
    if |spl| != 2 then Failure(StartMarkerNotUnique)
    else
      var spl2 := Split(spl[1], EndToken);
      if |spl2| != 2 then Failure(EndMarkerNotUnique)
      else Success(spl[0] + StartMarker + html + EndMarker + spl2[1])
  }

  /** Whether the markers are acceptable does not depend on the fragment. */
  function MarkerCheck(content: string): (r: Option<MarkerError>)
    ensures forall html :: (r.None? <==> Merge(content, html).Success?)
    ensures forall html :: r.Some? ==> Merge(content, html) == Failure(r.value)
  {
    var spl := Split(content, StartToken);
    if |spl| != 2 then Some(StartMarkerNotUnique)
    else if |Split(spl[1], EndToken)| != 2 then Some(EndMarkerNotUnique)
    else None
  }

  /**
   * The merge fails on the start marker exactly when it does not occur once, and
   * otherwise on the end marker exactly when that does not occur once after it.
   */
  lemma MergeFailure(content: string, html: string)
    ensures Merge(content, html) == Failure(StartMarkerNotUnique)
      <==> CountMarkers(content, StartToken) != 1
    ensures CountMarkers(content, StartToken) == 1 ==>
      (Merge(content, html) == Failure(EndMarkerNotUnique)
       <==> CountMarkers(Split(content, StartToken)[1], EndToken) != 1)
  {
    TokensValid();
    SplitCount(content, StartToken);
    if CountMarkers(content, StartToken) == 1 {
      SplitCount(Split(content, StartToken)[1], EndToken);
    }
  }

  /**
   * Nothing outside the marked region changes: the result keeps the text before the start
   * marker and after the end marker, and only the span from the one to the other is replaced.
   */
  lemma MergeKeepsOutside(content: string, html: string)
    requires Merge(content, html).Success?
    ensures exists i, m, j :: (0 <= i < m < j <= |content|
      && MarkerAt(content, i, StartToken).Some?
      && MarkerAt(content, m, EndToken) == Some(j - m)
      && Merge(content, html).value == content[..i] + StartMarker + html + EndMarker + content[j..])
  {
    var spl := Split(content, StartToken);
    TokensValid();
    var i, m, j := SplitBounds(content, StartToken, EndToken);
    assert Merge(content, html).value == spl[0] + StartMarker + html + EndMarker + Split(spl[1], EndToken)[1];
  }

  /** Where the pieces of a page with well-placed markers lie in it. */
  lemma SplitBounds(content: string, start: string, end: string) returns (i: nat, m: nat, j: nat)
    requires ValidToken(start) && ValidToken(end)
    requires |Split(content, start)| == 2
    requires |Split(Split(content, start)[1], end)| == 2
    ensures 0 <= i < m < j <= |content|
    ensures MarkerAt(content, i, start).Some? && MarkerAt(content, m, end) == Some(j - m)
    ensures Split(content, start)[0] == content[..i]
    ensures Split(Split(content, start)[1], end)[1] == content[j..]
  {
    var e;
    i, e := SplitTwoShape(content, start);
    var rest := content[e..];
    var b2, e2 := SplitTwoShape(rest, end);
    MarkerAtSuffix(content, e, b2, end);
    assert rest[e2..] == content[e + e2..];
    m, j := e + b2, e + e2;
  }

  /** A fragment holding neither marker, so that merging it cannot disturb the page's markers. */
  predicate MarkerFree(html: string) {
    NoMarkerIn(html, StartToken) && NoMarkerIn(html, EndToken)
  }

  /**
   * A page whose marked region holds a marker-free fragment, with no start marker before or
   * after it and no end marker after it, merges by replacing exactly that fragment.
   */
  lemma MergeOfCanonical(prefix: string, inner: string, suffix: string, html: string)
    requires NoMarkerIn(prefix, StartToken) && MarkerFree(inner)
    requires MarkerFree(suffix)
    ensures Merge(prefix + StartMarker + inner + EndMarker + suffix, html)
      == Success(prefix + StartMarker + html + EndMarker + suffix)
  {
    var tail := inner + EndMarker + suffix;
    Regroup(prefix, StartMarker, inner, EndMarker, suffix);
    StartSplitOfCanonical(prefix, inner, suffix);
    EndSplitOfCanonical(inner, suffix);
    MergeOfSplits(prefix + StartMarker + tail, html, prefix, tail, inner, suffix);
  }

  lemma Regroup(a: string, b: string, c: string, d: string, e: string)
    ensures a + b + c + d + e == a + b + (c + d + e)
  {
  }

  /** `Merge` in terms of the two splits it makes. */
  lemma MergeOfSplits(content: string, html: string, prefix: string, tail: string, inner: string, suffix: string)
    requires Split(content, StartToken) == [prefix, tail]
    requires Split(tail, EndToken) == [inner, suffix]
    ensures Merge(content, html) == Success(prefix + StartMarker + html + EndMarker + suffix)
  {
  }

  lemma StartSplitOfCanonical(prefix: string, inner: string, suffix: string)
    requires NoMarkerIn(prefix, StartToken) && NoMarkerIn(inner, StartToken)
    requires NoMarkerIn(suffix, StartToken)
    ensures Split(prefix + StartMarker + (inner + EndMarker + suffix), StartToken)
      == [prefix, inner + EndMarker + suffix]
  {
    TokensValid();
    var tail := inner + EndMarker + suffix;
    NoStartInEndMarker(suffix);
    ConcatNoMarker(inner, EndMarker + suffix, StartToken);
    assert inner + (EndMarker + suffix) == tail;
    StartMarkerFound(tail);
    SplitTwoOf(prefix, StartMarker, tail, StartToken);
  }

  lemma EndSplitOfCanonical(inner: string, suffix: string)
    requires NoMarkerIn(inner, EndToken) && NoMarkerIn(suffix, EndToken)
    ensures Split(inner + EndMarker + suffix, EndToken) == [inner, suffix]
  {
    TokensValid();
    EndMarkerFound(suffix);
    SplitTwoOf(inner, EndMarker, suffix, EndToken);
  }

  /** Merging the same marker-free fragment again leaves the page as it is, so no write follows. */
  lemma MergeIdempotent(content: string, html: string)
    requires Merge(content, html).Success? && MarkerFree(html)
    ensures Merge(Merge(content, html).value, html) == Merge(content, html)
  {
    var prefix, suffix := MergeParts(content, html);
    MergeOfCanonical(prefix, html, suffix, html);
  }

  /** The text kept before and after the marked region by a successful merge, and what it holds. */
  lemma MergeParts(content: string, html: string) returns (prefix: string, suffix: string)
    requires Merge(content, html).Success?
    ensures Merge(content, html).value == prefix + StartMarker + html + EndMarker + suffix
    ensures NoMarkerIn(prefix, StartToken) && MarkerFree(suffix)
  {
    TokensValid();
    var b, e := SplitTwoShape(content, StartToken);
    var rest := Split(content, StartToken)[1];
    var b2, e2 := SplitTwoShape(rest, EndToken);
    prefix, suffix := Split(content, StartToken)[0], Split(rest, EndToken)[1];
    NoMarkerInSuffix(rest, e2, StartToken);
  }

  /** A worked example: the old fragment is replaced, and merging the same fragment again changes nothing. */
  lemma MergeExample()
    ensures Merge("A" + StartMarker + "OLD" + EndMarker + "B", "NEW")
      == Success("A" + StartMarker + "NEW" + EndMarker + "B")
    ensures Merge("A" + StartMarker + "NEW" + EndMarker + "B", "NEW")
      == Success("A" + StartMarker + "NEW" + EndMarker + "B")
  {
    NoMarkerInShort("A", StartToken);
    NoMarkerInShort("OLD", StartToken);
    NoMarkerInShort("OLD", EndToken);
    NoMarkerInShort("NEW", StartToken);
    NoMarkerInShort("NEW", EndToken);
    NoMarkerInShort("B", StartToken);
    NoMarkerInShort("B", EndToken);
    MergeOfCanonical("A", "OLD", "B", "NEW");
    MergeOfCanonical("A", "NEW", "B", "NEW");
  }

  /** A text shorter than any marker and without `<` holds none. */
  lemma NoMarkerInShort(s: string, token: string)
    requires '<' !in s
    ensures NoMarkerIn(s, token)
  {
    forall i | 0 <= i <= |s| ensures MarkerAt(s, i, token).None? {
      if i < |s| {
        NoMarkerAtNonLt(s, i, token);
      } else {
        assert s[i..] == [];
      }
    }
  }
}
