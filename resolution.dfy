/**
 * The pure decisions of the webjar filter: which serve method an init parameter
 * selects, which full resource path a request URI resolves to through the asset
 * locator, and where (and whether) a request is redirected.
 */
module WebJarResolution {
  import opened JavaOptional
  import opened JavaStrings

  // ---------------------------------------------------------------------------
  // Serve method and its init parameter
  // ---------------------------------------------------------------------------

  /** How the filter answers a resolved request. */
  datatype ResponseServeMethod = WriteByteResponse | Redirect {

    /** `Enum.name()`: the constant's name as written in the source. */
    function Name(): (name: string) {
      match this
      case WriteByteResponse => "WRITE_BYTE_RESPONSE"
      case Redirect => "REDIRECT"
    }
  }

  /** Name of the init parameter that selects the serve method. */
  const InitParameterName := "responseServeMethod"

  /**
   * `ResponseServeMethod.valueOf`: the constant with exactly this name, or Empty
   * where Java throws IllegalArgumentException. It is the inverse of `Name`.
   */
  function ValueOf(name: string): (m: Optional<ResponseServeMethod>)
    ensures forall x: ResponseServeMethod :: m == Present(x) <==> x.Name() == name
  {
    if name == WriteByteResponse.Name() then Present(WriteByteResponse)
    else if name == Redirect.Name() then Present(Redirect)
    else Empty
  }

  /**
   * The serve method `init` stores for an init parameter that may be absent: an
   * absent parameter means WRITE_BYTE_RESPONSE, and a name `valueOf` rejects falls
   * back to WRITE_BYTE_RESPONSE.
   */
  function ServeMethodFor(initParameter: Optional<string>): (m: ResponseServeMethod)
    ensures m == Redirect <==> initParameter == Present("REDIRECT")
    ensures m == WriteByteResponse <==> initParameter != Present("REDIRECT")
  {
    ValueOf(initParameter.OrElse(WriteByteResponse.Name())).OrElse(WriteByteResponse)
  }

  // ---------------------------------------------------------------------------
  // The request URI and the question put to the asset locator
  // ---------------------------------------------------------------------------

  /** A character the pattern `^[/\s]+` removes from the front of the URI. */
  predicate IsLeadingJunk(c: char) {
    c == '/' || IsRegexWhitespace(c)
  }

  /** The request URI without its leading slashes and whitespace. */
  function StripLeading(uri: string): (r: string)
    ensures |r| <= |uri| && forall i :: 0 <= i < |r| ==> r[i] == uri[|uri| - |r| + i]
    ensures forall i :: 0 <= i < |uri| - |r| ==> IsLeadingJunk(uri[i])
    ensures r == [] || !IsLeadingJunk(uri[|uri| - |r|])
  {
    if uri != [] && IsLeadingJunk(uri[0]) then StripLeading(uri[1..]) else uri
  }

  /** The arguments of `WebJarAssetLocator.getFullPath(webjarId, filename)`. */
  datatype Query = Query(webjarId: string, filename: string)

  /**
   * The locator query for a request URI: the second and the last part of the
   * stripped URI split on `/`, or Empty when there are fewer than two parts and
   * the locator is not asked at all.
   */
  function LocatorQuery(requestUri: string): (q: Optional<Query>) {
    var parts := Split(StripLeading(requestUri));
    if |parts| > 1 then Present(Query(parts[1], parts[|parts| - 1])) else Empty
  }

  /** `segs[k]` is the last non-empty segment after the first one. */
  ghost predicate LastNonEmptyAt(segs: seq<string>, k: int) {
    1 <= k < |segs| && segs[k] != "" && forall j :: k < j < |segs| ==> segs[j] == ""
  }

  /**
   * The locator query in terms of the `/`-separated segments of the stripped
   * URI: it is asked exactly when some segment after the first is non-empty, for
   * the webjar id in the second segment and the file name in the last non-empty
   * one.
   */
  lemma LocatorQueryBySegments(requestUri: string)
    ensures var segs := Segments(StripLeading(requestUri));
            LocatorQuery(requestUri).Present? <==> exists j :: 1 <= j < |segs| && segs[j] != ""
    ensures var segs := Segments(StripLeading(requestUri));
            LocatorQuery(requestUri).Present? ==>
              LocatorQuery(requestUri).value.webjarId == segs[1] &&
              exists k :: LastNonEmptyAt(segs, k) && segs[k] == LocatorQuery(requestUri).value.filename
  {
    var s := StripLeading(requestUri);
    var segs := Segments(s);
    if '/' !in s {
      SegmentsWithoutSeparator(s);
    } else {
      assert s != [] && s[0] != '/';
      assert segs[0] != "" by {
        assert segs[0] == [s[0]] + Segments(s[1..])[0];
      }
      var parts := DropTrailingEmpty(segs);
      assert parts == Split(s);
      assert |parts| >= 1;
      if |parts| > 1 {
        assert LastNonEmptyAt(segs, |parts| - 1);
      } else {
        assert forall j :: 1 <= j < |segs| ==> segs[j] == "";
      }
    }
  }

  // ---------------------------------------------------------------------------
  // Several matches: the shortest one
  // ---------------------------------------------------------------------------

  /**
   * `matches.stream().min((a, b) -> a.length() < b.length() ? -1 : 1)`: a left
   * fold that keeps the running minimum only while it is strictly shorter than the
   * next element, so among equally short matches the last one wins. Lengths are
   * Java's, in UTF-16 code units.
   */
  function ShortestMatch(matches: seq<string>): (r: Optional<string>)
    ensures r.Present? <==> matches != []
    ensures r.Present? ==> r.value in matches
    ensures r.Present? ==> forall m :: m in matches ==> JavaLength(r.value) <= JavaLength(m)
  {
    if matches == [] then Empty
    else
      var last := matches[|matches| - 1];
      assert matches == matches[..|matches| - 1] + [last];
      match ShortestMatch(matches[..|matches| - 1])
      case Empty => Present(last)
      case Present(best) => Present(if JavaLength(best) < JavaLength(last) then best else last)
  }

  /** `matches[k]` is a shortest match and every later match is strictly longer, in UTF-16 code units. */
  ghost predicate IsLastShortest(matches: seq<string>, k: int) {
    0 <= k < |matches| &&
    (forall j :: 0 <= j < |matches| ==> JavaLength(matches[k]) <= JavaLength(matches[j])) &&
    (forall j :: k < j < |matches| ==> JavaLength(matches[k]) < JavaLength(matches[j]))
  }

  /** One step of the fold: the last match is weighed against the minimum of the others. */
  lemma ShortestMatchStep(matches: seq<string>, best: string)
    requires |matches| >= 2 && ShortestMatch(matches[..|matches| - 1]) == Present(best)
    ensures var last := matches[|matches| - 1];
            ShortestMatch(matches) == Present(if JavaLength(best) < JavaLength(last) then best else last)
  {
  }

  /** The tie-break: the chosen match is the last of the shortest ones. */
  lemma {:induction false} ShortestMatchIsLastShortest(matches: seq<string>, k: int)
    requires IsLastShortest(matches, k)
    ensures ShortestMatch(matches) == Present(matches[k])
  {
    var n := |matches|;
    var init := matches[..n - 1];
    if k < n - 1 {
      assert IsLastShortest(init, k) by {
        assert forall j :: 0 <= j < n - 1 ==> init[j] == matches[j];
      }
      ShortestMatchIsLastShortest(init, k);
      assert JavaLength(matches[k]) < JavaLength(matches[n - 1]);
      ShortestMatchStep(matches, matches[k]);
    } else if init != [] {
      var best := ShortestMatch(init).value;
      assert JavaLength(matches[k]) <= JavaLength(best) by {
        var i :| 0 <= i < |init| && init[i] == best;
        assert matches[i] == best;
      }
      ShortestMatchStep(matches, best);
    }
  }

  /**
   * Lengths are compared in UTF-16 code units: two characters outside the Basic
   * Multilingual Plane are longer than three ASCII letters.
   */
  lemma SupplementaryCharactersCountTwice()
    ensures ShortestMatch(["\U{1F600}\U{1F600}", "abc"]) == Present("abc")
  {
    assert JavaLength("\U{1F600}\U{1F600}") == 4 by {
      assert JavaLength("\U{1F600}\U{1F600}") == 2 + JavaLength("\U{1F600}");
    }
    assert JavaLength("abc") == 3;
  }

  // ---------------------------------------------------------------------------
  // The asset locator and the full path of a request
  // ---------------------------------------------------------------------------

  /**
   * What `WebJarAssetLocator.getFullPath` does: return one full path, throw
   * MultipleMatchesException with the list of matches, or throw anything else
   * (no such webjar or file), which the filter does not catch.
   */
  datatype Lookup = FullPath(path: string) | MultipleMatches(matches: seq<string>) | NotFound

  /** The injected asset locator, as an oracle on (webjarId, filename). */
  type Locator = (string, string) -> Lookup

  /** A resolved full path, or the locator's exception escaping the filter. */
  datatype Resolution = Resolved(path: string) | LocatorThrew

  /** `getFullPathToWebJar`. */
  function FullPathToWebJar(requestUri: string, locate: Locator): (r: Resolution)
  {
    var stripped := StripLeading(requestUri);
    match LocatorQuery(requestUri)
    case Empty => Resolved(stripped)
    case Present(q) =>
      match locate(q.webjarId, q.filename)
      case FullPath(p) => Resolved(p)
      case MultipleMatches(ms) => Resolved(ShortestMatch(ms).OrElse(stripped))
      case NotFound => LocatorThrew
  }

  /**
   * A URI with fewer than two parts resolves to itself without its leading
   * slashes and whitespace, whatever the locator would answer.
   */
  lemma ShortUriBypassesLocator(requestUri: string, locate: Locator, other: Locator)
    requires LocatorQuery(requestUri).Empty?
    ensures FullPathToWebJar(requestUri, locate) == Resolved(StripLeading(requestUri))
    ensures FullPathToWebJar(requestUri, locate) == FullPathToWebJar(requestUri, other)
  {
  }

  /** The locator is consulted on the query alone: two locators that agree on it give the same result. */
  lemma ResolutionDependsOnlyOnQuery(requestUri: string, locate: Locator, other: Locator)
    requires LocatorQuery(requestUri).Present?
    requires var q := LocatorQuery(requestUri).value;
             locate(q.webjarId, q.filename) == other(q.webjarId, q.filename)
    ensures FullPathToWebJar(requestUri, locate) == FullPathToWebJar(requestUri, other)
  {
  }

  /** A single full path from the locator is the result, exactly. */
  lemma SingleMatchIsResult(requestUri: string, locate: Locator, path: string)
    requires LocatorQuery(requestUri).Present?
    requires var q := LocatorQuery(requestUri).value;
             locate(q.webjarId, q.filename) == FullPath(path)
    ensures FullPathToWebJar(requestUri, locate) == Resolved(path)
  {
  }

  /**
   * Several matches: a non-empty list gives one of its shortest members, the last
   * of them; an empty list leaves the stripped URI.
   */
  lemma MultipleMatchesGiveShortest(requestUri: string, locate: Locator, matches: seq<string>)
    requires LocatorQuery(requestUri).Present?
    requires var q := LocatorQuery(requestUri).value;
             locate(q.webjarId, q.filename) == MultipleMatches(matches)
    ensures matches == [] ==> FullPathToWebJar(requestUri, locate) == Resolved(StripLeading(requestUri))
    ensures matches != [] ==>
              var r := FullPathToWebJar(requestUri, locate);
              r.Resolved? && r.path in matches && forall m :: m in matches ==> JavaLength(r.path) <= JavaLength(m)
    ensures forall k :: IsLastShortest(matches, k) ==> FullPathToWebJar(requestUri, locate) == Resolved(matches[k])
  {
    forall k | IsLastShortest(matches, k)
      ensures FullPathToWebJar(requestUri, locate) == Resolved(matches[k])
    {
      ShortestMatchIsLastShortest(matches, k);
    }
  }

  /** Any other exception of the locator escapes: there is no resolved path. */
  lemma LocatorFailureEscapes(requestUri: string, locate: Locator)
    ensures FullPathToWebJar(requestUri, locate) == LocatorThrew <==>
              LocatorQuery(requestUri).Present? &&
              locate(LocatorQuery(requestUri).value.webjarId, LocatorQuery(requestUri).value.filename) == NotFound
  {
  }

  // ---------------------------------------------------------------------------
  // The redirect location
  // ---------------------------------------------------------------------------

  /** The text the redirect pattern (`^.*` then `/webjars/`) ends with, and the replacement. */
  const Marker := "/webjars/"

  predicate MarkerAt(s: string, k: int) {
    OccursAt(s, Marker, k)
  }

  /** Length of the first line of `s`: how far `.*` can reach from the start. */
  function FirstLineLength(s: string): (n: nat)
    ensures n <= |s|
    ensures forall i :: 0 <= i < n ==> !IsLineTerminator(s[i])
    ensures n < |s| ==> IsLineTerminator(s[n])
  {
    if s == [] || IsLineTerminator(s[0]) then 0 else 1 + FirstLineLength(s[1..])
  }

  /** The start of the last `/webjars/` that ends at or before `end`. */
  function LastMarkerBefore(s: string, end: nat): (k: Optional<nat>)
    requires end <= |s|
    ensures k.Present? ==> MarkerAt(s, k.value) && k.value + |Marker| <= end
    ensures forall j :: MarkerAt(s, j) && j + |Marker| <= end ==> k.Present? && j <= k.value
    decreases end
  {
    if end < |Marker| then Empty
    else if s[end - |Marker|..end] == Marker then Present(end - |Marker|)
    else LastMarkerBefore(s, end - 1)
  }

  /**
   * `fullPath.replaceAll` of the pattern `^.*` + `/webjars/` by `/webjars/`: everything up to the last
   * `/webjars/` of the first line becomes `/webjars/`; without one the path is
   * kept.
   */
  function RedirectLocation(fullPath: string): (loc: string)
  {
    match LastMarkerBefore(fullPath, FirstLineLength(fullPath))
    case Empty => fullPath
    case Present(k) => Marker + fullPath[k + |Marker|..]
  }

  /** `s[..e]` is a match of the pattern `^.*` + `/webjars/`. */
  ghost predicate PrefixMatches(s: string, e: int) {
    |Marker| <= e <= |s| && MarkerAt(s, e - |Marker|) &&
    forall i :: 0 <= i < e ==> !IsLineTerminator(s[i])
  }

  /** `s[..e]` is the match a greedy `.*` picks: no match is longer. */
  ghost predicate IsLongestMatch(s: string, e: int) {
    PrefixMatches(s, e) && forall e' :: PrefixMatches(s, e') ==> e' <= e
  }

  lemma PrefixMatchesWithinFirstLine(s: string, e: int)
    ensures PrefixMatches(s, e) <==> MarkerAt(s, e - |Marker|) && |Marker| <= e <= FirstLineLength(s)
  {
  }

  /** A match inside the suffix that starts at a matched `/webjars/` is a match of the whole string. */
  lemma PrefixMatchesOfSuffix(s: string, k: nat, e: int)
    requires PrefixMatches(s, k + |Marker|)
    requires PrefixMatches(s[k..], e)
    ensures PrefixMatches(s, k + e)
  {
    var t := s[k..];
    assert s[k + e - |Marker|..k + e] == t[e - |Marker|..e];
    forall i | 0 <= i < k + e ensures !IsLineTerminator(s[i]) {
      if i >= k + |Marker| {
        assert s[i] == t[i - k];
      }
    }
  }

  /** Without a match of the pattern the path is kept. */
  lemma NoMatchKeepsPath(fullPath: string)
    requires forall e :: !PrefixMatches(fullPath, e)
    ensures RedirectLocation(fullPath) == fullPath
  {
    match LastMarkerBefore(fullPath, FirstLineLength(fullPath))
    case Empty =>
    case Present(k) =>
      assert PrefixMatches(fullPath, k + |Marker|);
  }

  /** The longest match is the one that ends the last `/webjars/` of the first line. */
  lemma LongestMatchAtLastMarker(fullPath: string)
    requires LastMarkerBefore(fullPath, FirstLineLength(fullPath)).Present?
    ensures IsLongestMatch(fullPath, LastMarkerBefore(fullPath, FirstLineLength(fullPath)).value + |Marker|)
  {
    var n := FirstLineLength(fullPath);
    forall e | PrefixMatches(fullPath, e) ensures e <= LastMarkerBefore(fullPath, n).value + |Marker| {
      PrefixMatchesWithinFirstLine(fullPath, e);
    }
  }

  /** The longest match is replaced by `/webjars/`. */
  lemma LongestMatchReplaced(fullPath: string, e: int)
    requires IsLongestMatch(fullPath, e)
    ensures RedirectLocation(fullPath) == Marker + fullPath[e..]
  {
    var n := FirstLineLength(fullPath);
    PrefixMatchesWithinFirstLine(fullPath, e);
    LongestMatchAtLastMarker(fullPath);
  }

  /**
   * The regular-expression replacement, stated on matches: with no match the
   * path is unchanged; otherwise there is a longest match, and it is replaced by
   * `/webjars/`.
   */
  lemma RedirectLocationReplacesLongestMatch(fullPath: string)
    ensures (forall e :: !PrefixMatches(fullPath, e)) ==> RedirectLocation(fullPath) == fullPath
    ensures (exists e :: PrefixMatches(fullPath, e)) ==> exists e :: IsLongestMatch(fullPath, e)
    ensures forall e :: IsLongestMatch(fullPath, e) ==> RedirectLocation(fullPath) == Marker + fullPath[e..]
  {
    if forall e :: !PrefixMatches(fullPath, e) {
      NoMatchKeepsPath(fullPath);
    } else {
      var e0 :| PrefixMatches(fullPath, e0);
      PrefixMatchesWithinFirstLine(fullPath, e0);
      LongestMatchAtLastMarker(fullPath);
    }
    forall e | IsLongestMatch(fullPath, e) ensures RedirectLocation(fullPath) == Marker + fullPath[e..] {
      LongestMatchReplaced(fullPath, e);
    }
  }

  /** The redirect location is the resolved path from its last `/webjars/` (of the first line) on, or the whole path. */
  lemma RedirectLocationIsSuffix(fullPath: string)
    ensures exists k :: 0 <= k <= |fullPath| && RedirectLocation(fullPath) == fullPath[k..]
  {
    match LastMarkerBefore(fullPath, FirstLineLength(fullPath))
    case Empty =>
      assert RedirectLocation(fullPath) == fullPath[0..];
    case Present(k) =>
      assert fullPath[k..] == fullPath[k..k + |Marker|] + fullPath[k + |Marker|..];
  }

  /** Rewriting a redirect location again changes nothing. */
  lemma RedirectLocationIdempotent(fullPath: string)
    ensures RedirectLocation(RedirectLocation(fullPath)) == RedirectLocation(fullPath)
  {
    var n := FirstLineLength(fullPath);
    match LastMarkerBefore(fullPath, n)
    case Empty =>
    case Present(k) =>
      var loc := RedirectLocation(fullPath);
      assert loc == fullPath[k..] by {
        assert fullPath[k..] == fullPath[k..k + |Marker|] + fullPath[k + |Marker|..];
      }
      LongestMatchAtLastMarker(fullPath);
      assert PrefixMatches(loc, |Marker|) by {
        assert loc[..|Marker|] == Marker;
      }
      forall e | PrefixMatches(loc, e) ensures e <= |Marker| {
        PrefixMatchesOfSuffix(fullPath, k, e);
      }
      LongestMatchReplaced(loc, |Marker|);
      assert loc == Marker + loc[|Marker|..];
  }

  // ---------------------------------------------------------------------------
  // The redirect decision
  // ---------------------------------------------------------------------------

  /**
   * The redirect `redirectToVersionedWebjar` sends for a request and its resolved
   * path: the redirect location, unless the request URI already contains it.
   */
  function RedirectTarget(requestUri: string, fullPath: string): (target: Optional<string>)
    ensures target.Present? <==> !Contains(requestUri, RedirectLocation(fullPath))
    ensures target.Present? ==> target.value == RedirectLocation(fullPath)
    ensures target.Present? ==>
              (exists e :: IsLongestMatch(fullPath, e) && target.value == Marker + fullPath[e..]) ||
              ((forall e :: !PrefixMatches(fullPath, e)) && target.value == fullPath)
    ensures target.Present? ==> !Contains(requestUri, target.value)
  {
    var loc := RedirectLocation(fullPath);
    RedirectLocationReplacesLongestMatch(fullPath);
    if Contains(requestUri, loc) then Empty else Present(loc)
  }

  /**
   * No redirect loop: a request for the location the filter redirected to is not
   * redirected again, whether it resolves to the same full path or to the
   * location itself.
   */
  lemma RedirectTargetIsFinal(requestUri: string, fullPath: string, followUpPath: string)
    requires RedirectTarget(requestUri, fullPath).Present?
    requires var loc := RedirectTarget(requestUri, fullPath).value;
             followUpPath == fullPath || followUpPath == loc
    ensures RedirectTarget(RedirectTarget(requestUri, fullPath).value, followUpPath) == Empty
  {
    var loc := RedirectTarget(requestUri, fullPath).value;
    RedirectLocationIdempotent(fullPath);
    assert RedirectLocation(followUpPath) == loc;
    ContainsItself(loc);
  }
}
