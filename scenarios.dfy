/** The filter's unit-test cases, proved from the model's contracts. */
module FilterScenarios {
  import opened JavaOptional
  import opened JavaStrings
  import opened WebJarResolution
  import opened Servlet
  import opened Filters

  /** `s` holds none of the five line terminators, so `.` matches each of its characters. */
  predicate OnOneLine(s: string) {
    '\n' !in s && '\r' !in s && '\U{85}' !in s && '\U{2028}' !in s && '\U{2029}' !in s
  }

  /** `a` + `/webjars/` + `b` on one line matches the pattern up to the end of that `/webjars/`. */
  lemma MarkedPathMatches(a: string, b: string)
    requires OnOneLine(a) && OnOneLine(b)
    ensures PrefixMatches(a + Marker + b, |a| + |Marker|)
  {
    var p := a + Marker + b;
    var e := |a| + |Marker|;
    assert p[|a|..e] == Marker;
    forall i | 0 <= i < e ensures !IsLineTerminator(p[i]) {
      if i < |a| {
        assert p[i] == a[i];
      } else {
        assert p[i] == Marker[i - |a|];
      }
    }
  }

  /** When `b` has no `w`, no match of `a` + `/webjars/` + `b` ends after that `/webjars/`. */
  lemma NoLaterMatch(a: string, b: string)
    requires 'w' !in b
    ensures forall e' :: PrefixMatches(a + Marker + b, e') ==> e' <= |a| + |Marker|
  {
    var p := a + Marker + b;
    var e := |a| + |Marker|;
    // the only `w` past the one of this `/webjars/` would be in `b`, which has none
    forall j | |a| + 1 < j < |p| ensures p[j] != 'w' {
      if j >= e {
        assert p[j] == b[j - e];
      } else {
        var rest := "ebjars/";
        assert Marker == "/w" + rest;
        assert p[j] == rest[j - |a| - 2];
      }
    }
    forall e' | PrefixMatches(p, e') ensures e' <= e {
      var k := e' - |Marker|;
      assert p[k..e'] == Marker;
      assert p[k + 1] == 'w';
    }
  }

  /**
   * A path `a` + `/webjars/` + `b` on one line, where `b` has no `w` and so no
   * further `/webjars/`, is redirected to `/webjars/` + `b`.
   */
  lemma RedirectLocationOfMarkedPath(p: string, a: string, b: string)
    requires p == a + Marker + b
    requires OnOneLine(a) && OnOneLine(b)
    requires 'w' !in b
    ensures RedirectLocation(p) == Marker + b
  {
    var e := |a| + |Marker|;
    MarkedPathMatches(a, b);
    NoLaterMatch(a, b);
    LongestMatchReplaced(p, e);
    assert p[e..] == b;
  }

  /**
   * A path segment of the redirect tests: not empty, no `/`, no line terminator,
   * and no `w`, so that it cannot hold another `webjars`.
   */
  predicate IsPlainName(s: string) {
    s != [] && '/' !in s && 'w' !in s && OnOneLine(s)
  }

  /** `/webjars/<webjar>/<file>`, a request without a version. */
  function UnversionedRequest(webjar: string, file: string): (uri: string) {
    "/" + Join(["webjars", webjar, file])
  }

  /** `/webjars/<webjar>/<version>/<file>`, a request with a version. */
  function VersionedRequest(webjar: string, version: string, file: string): (uri: string) {
    "/" + Join(["webjars", webjar, version, file])
  }

  /** `META-INF/resources/webjars/<webjar>/<version>/<file>`, the path the locator finds. */
  function ResourcePath(webjar: string, version: string, file: string): (path: string) {
    ResourcesDirectory + VersionedRequest(webjar, version, file)
  }

  /** The class-path directory webjars unpack under. */
  const ResourcesDirectory := "META-INF/resources"

  lemma JoinOfThree(x: string, y: string, z: string)
    ensures Join([x, y, z]) == x + "/" + y + "/" + z
  {
    assert [x, y, z][1..] == [y, z];
    assert [y, z][1..] == [z];
    assert Join([y, z]) == y + "/" + z;
    assert Join([x, y, z]) == x + "/" + (y + "/" + z);
    assert x + "/" + (y + "/" + z) == x + "/" + y + "/" + z;
  }

  lemma JoinOfFour(w: string, x: string, y: string, z: string)
    ensures Join([w, x, y, z]) == w + "/" + x + "/" + y + "/" + z
  {
    assert [w, x, y, z][1..] == [x, y, z];
    JoinOfThree(x, y, z);
    assert Join([w, x, y, z]) == w + "/" + (x + "/" + y + "/" + z);
    assert w + "/" + (x + "/" + y + "/" + z) == w + "/" + x + "/" + y + "/" + z;
  }

  /** A request URI `/` + `s` whose segments are known asks the locator for its second and last one. */
  lemma QueryOfSegments(requestUri: string, s: string, parts: seq<string>)
    requires requestUri == "/" + s
    requires s != [] && !IsLeadingJunk(s[0]) && '/' in s
    requires Segments(s) == parts && |parts| >= 2 && parts[|parts| - 1] != ""
    ensures LocatorQuery(requestUri) == Present(Query(parts[1], parts[|parts| - 1]))
  {
    assert requestUri[0] == '/' && requestUri[1..] == s;
    assert StripLeading(requestUri) == s;
    assert DropTrailingEmpty(parts) == parts;
  }

  /**
   * A request `/` + the joined `parts` asks the locator for the second and the
   * last part, when the first part has no leading junk and the last is not empty.
   */
  lemma QueryOfJoinedRequest(parts: seq<string>)
    requires |parts| >= 2 && parts[0] != "" && !IsLeadingJunk(parts[0][0]) && parts[|parts| - 1] != ""
    requires forall i :: 0 <= i < |parts| ==> '/' !in parts[i]
    ensures LocatorQuery("/" + Join(parts)) == Present(Query(parts[1], parts[|parts| - 1]))
  {
    var s := Join(parts);
    JoinStartsWithFirst(parts);
    assert s[0] == parts[0][0];
    JoinHasSeparator(parts);
    SegmentsOfJoin(parts);
    QueryOfSegments("/" + s, s, parts);
  }

  /** Both request forms ask the locator for the webjar and the file name. */
  lemma RequestQueries(webjar: string, version: string, file: string)
    requires IsPlainName(webjar) && IsPlainName(version) && IsPlainName(file)
    ensures LocatorQuery(UnversionedRequest(webjar, file)) == Present(Query(webjar, file))
    ensures LocatorQuery(VersionedRequest(webjar, version, file)) == Present(Query(webjar, file))
  {
    var unversioned := ["webjars", webjar, file];
    var versioned := ["webjars", webjar, version, file];
    assert forall i :: 0 <= i < |unversioned| ==> '/' !in unversioned[i];
    assert versioned[|versioned| - 1] == file;
    assert forall i :: 0 <= i < |versioned| ==> '/' !in versioned[i];
    QueryOfJoinedRequest(unversioned);
    QueryOfJoinedRequest(versioned);
  }

  /** The part of a versioned request after `/webjars/` is on one line and has no `w`. */
  lemma PlainTail(webjar: string, version: string, file: string)
    requires IsPlainName(webjar) && IsPlainName(version) && IsPlainName(file)
    ensures var b := webjar + "/" + version + "/" + file;
            OnOneLine(b) && 'w' !in b
  {
  }

  /** The versioned request is `/webjars/` followed by the webjar, the version and the file. */
  lemma VersionedRequestAfterMarker(webjar: string, version: string, file: string)
    ensures VersionedRequest(webjar, version, file) == Marker + (webjar + "/" + version + "/" + file)
  {
    JoinOfFour("webjars", webjar, version, file);
  }

  /** A resource path is redirected to the versioned request for it. */
  lemma ResourcePathRedirectLocation(webjar: string, version: string, file: string)
    requires IsPlainName(webjar) && IsPlainName(version) && IsPlainName(file)
    ensures RedirectLocation(ResourcePath(webjar, version, file)) == VersionedRequest(webjar, version, file)
  {
    var a := ResourcesDirectory;
    var b := webjar + "/" + version + "/" + file;
    PlainTail(webjar, version, file);
    VersionedRequestAfterMarker(webjar, version, file);
    assert OnOneLine(a);
    var p := ResourcePath(webjar, version, file);
    assert p == a + Marker + b;
    RedirectLocationOfMarkedPath(p, a, b);
  }

  /**
   * doFilter_redirect, for any webjar: the request without a version resolves to
   * the resource path and is redirected to the versioned request.
   */
  lemma UnversionedRequestRedirected(locate: Locator, webjar: string, version: string, file: string)
    requires IsPlainName(webjar) && IsPlainName(version) && IsPlainName(file)
    requires locate(webjar, file) == FullPath(ResourcePath(webjar, version, file))
    ensures LocatorQuery(UnversionedRequest(webjar, file)) == Present(Query(webjar, file))
    ensures FullPathToWebJar(UnversionedRequest(webjar, file), locate) == Resolved(ResourcePath(webjar, version, file))
    ensures RedirectInteractions(UnversionedRequest(webjar, file), ResourcePath(webjar, version, file)) ==
              [SentRedirect(VersionedRequest(webjar, version, file))]
  {
    RequestQueries(webjar, version, file);
    ResourcePathRedirectLocation(webjar, version, file);
    JoinOfThree("webjars", webjar, file);
    JoinOfFour("webjars", webjar, version, file);
    NotContainedInShorter(UnversionedRequest(webjar, file), VersionedRequest(webjar, version, file));
  }

  /**
   * doFilter_noInfiniteRedirections, for any webjar: the versioned request resolves
   * to the same resource path and is not redirected again.
   */
  lemma VersionedRequestNotRedirected(locate: Locator, webjar: string, version: string, file: string)
    requires IsPlainName(webjar) && IsPlainName(version) && IsPlainName(file)
    requires locate(webjar, file) == FullPath(ResourcePath(webjar, version, file))
    ensures LocatorQuery(VersionedRequest(webjar, version, file)) == Present(Query(webjar, file))
    ensures FullPathToWebJar(VersionedRequest(webjar, version, file), locate) == Resolved(ResourcePath(webjar, version, file))
    ensures RedirectInteractions(VersionedRequest(webjar, version, file), ResourcePath(webjar, version, file)) == []
  {
    RequestQueries(webjar, version, file);
    ResourcePathRedirectLocation(webjar, version, file);
    ContainsItself(VersionedRequest(webjar, version, file));
  }

  /**
   * doFilter_redirect, on a request that resolves to `fullPath` and is redirected
   * to `location`: the redirect, then the chain, and nothing else.
   */
  method RedirectScenario(locate: Locator, requestUri: string, fullPath: string, location: string)
    requires FullPathToWebJar(requestUri, locate) == Resolved(fullPath)
    requires RedirectInteractions(requestUri, fullPath) == [SentRedirect(location)]
  {
    var filter := new WebJarFilter(locate);
    filter.Init(ConfigWith("REDIRECT"));
    assert filter.ServeMethod() == Redirect;
    var exchange := new Exchange();
    var failure := filter.DoFilter(requestUri, _ => Empty, exchange);
    assert exchange.log == [] + [SentRedirect(location)] + [ContinuedChain];
    assert failure == Empty;
  }

  /**
   * doFilter_noInfiniteRedirections, on a request that resolves to `fullPath` and
   * is not redirected: the chain is continued and nothing else happens.
   */
  method NoInfiniteRedirectScenario(locate: Locator, requestUri: string, fullPath: string)
    requires FullPathToWebJar(requestUri, locate) == Resolved(fullPath)
    requires RedirectInteractions(requestUri, fullPath) == []
  {
    var filter := new WebJarFilter(locate);
    filter.Init(ConfigWith("REDIRECT"));
    assert filter.ServeMethod() == Redirect;
    var exchange := new Exchange();
    var failure := filter.DoFilter(requestUri, _ => Empty, exchange);
    assert exchange.log == [] + [] + [ContinuedChain];
    assert failure == Empty;
  }

  /** The mocked locator of the jquery tests. */
  function JqueryLocator(webjarId: string, filename: string): (lookup: Lookup) {
    if webjarId == "jquery" && filename == "jquery.min.js"
    then FullPath(ResourcePath("jquery", "3.0.0", "jquery.min.js"))
    else NotFound
  }

  /** The jquery tests' values meet the scenarios' conditions. */
  method JqueryScenarios() {
    assert IsPlainName("jquery") && IsPlainName("3.0.0") && IsPlainName("jquery.min.js");
    UnversionedRequestRedirected(JqueryLocator, "jquery", "3.0.0", "jquery.min.js");
    VersionedRequestNotRedirected(JqueryLocator, "jquery", "3.0.0", "jquery.min.js");
    var fullPath := ResourcePath("jquery", "3.0.0", "jquery.min.js");
    RedirectScenario(JqueryLocator, UnversionedRequest("jquery", "jquery.min.js"), fullPath, VersionedRequest("jquery", "3.0.0", "jquery.min.js"));
    NoInfiniteRedirectScenario(JqueryLocator, VersionedRequest("jquery", "3.0.0", "jquery.min.js"), fullPath);
  }

  /** `/webjars/popper.js/popper.min.js` */
  const PopperRequest := UnversionedRequest("popper.js", "popper.min.js")
  /** `META-INF/resources/webjars/popper.js/1.14.1/`, the directory all three matches share. */
  const PopperDirectory := "META-INF/resources/webjars/popper.js/1.14.1/"
  /** The three matches of the test, in its order: `esm/popper.js`, `umd/popper.js`, `popper.js`. */
  const PopperMatches := [PopperDirectory + "esm/" + "popper.js", PopperDirectory + "umd/" + "popper.js", PopperDirectory + "popper.js"]

  /** The mocked locator of the popper test. */
  function PopperLocator(webjarId: string, filename: string): (lookup: Lookup) {
    if webjarId == "popper.js" && filename == "popper.min.js" then MultipleMatches(PopperMatches) else NotFound
  }

  lemma PopperRequestQuery()
    ensures LocatorQuery(PopperRequest) == Present(Query("popper.js", "popper.min.js"))
  {
    QueryOfJoinedRequest(["webjars", "popper.js", "popper.min.js"]);
  }

  /**
   * Of three matches in one directory, the file directly in it is the last
   * shortest when the other two sit in non-empty subdirectory prefixes.
   */
  lemma LastOfThreeIsLastShortest(dir: string, x: string, y: string, file: string)
    requires x != [] && y != []
    ensures IsLastShortest([dir + x + file, dir + y + file, dir + file], 2)
  {
    JavaLengthOfConcat(dir + x, file);
    JavaLengthOfConcat(dir, x);
    JavaLengthOfConcat(dir + y, file);
    JavaLengthOfConcat(dir, y);
    JavaLengthOfConcat(dir, file);
    JavaLengthBounds(x);
    JavaLengthBounds(y);
  }

  /** The test's three matches resolve to the shortest, the `1.14.1/popper.js` entry. */
  lemma PopperResolvesToShortest()
    ensures FullPathToWebJar(PopperRequest, PopperLocator) == Resolved(PopperMatches[2])
  {
    PopperRequestQuery();
    assert PopperLocator("popper.js", "popper.min.js") == MultipleMatches(PopperMatches);
    LastOfThreeIsLastShortest(PopperDirectory, "esm/", "umd/", "popper.js");
    MultipleMatchesGiveShortest(PopperRequest, PopperLocator, PopperMatches);
  }

  /**
   * doFilter_writeByteResponse, on a request that resolves to `fullPath`: the
   * resource's bytes are the whole body and the chain is not continued.
   */
  method WriteBytesScenario(locate: Locator, requestUri: string, fullPath: string, classPath: ClassPath, resourceBytes: seq<bv8>)
    requires FullPathToWebJar(requestUri, locate) == Resolved(fullPath)
    requires classPath(fullPath) == Present(resourceBytes)
  {
    var filter := new WebJarFilter(locate);
    filter.Init(ConfigWith("WRITE_BYTE_RESPONSE"));
    assert filter.ServeMethod() == WriteByteResponse;
    var exchange := new Exchange();
    assert FullPathToWebJar(requestUri, filter.locate) == Resolved(fullPath);
    var failure := filter.DoFilter(requestUri, classPath, exchange);
    assert filter.ServeMethod() == WriteByteResponse;
    assert failure == Empty && AppendsBody([], exchange.log, resourceBytes, BufferSize);
    assert exchange.log[0..] == exchange.log;
    assert WritesOfAtMost(exchange.log, BufferSize) && Written(exchange.log) == resourceBytes;
    assert ContinuedChain !in exchange.log;
  }

  /** doFilter_writeByteResponse_withMultipleMatches: the popper request writes the shortest match. */
  method PopperScenario(resourceBytes: seq<bv8>) {
    PopperResolvesToShortest();
    var classPath: ClassPath := path => if path == PopperMatches[2] then Present(resourceBytes) else Empty;
    WriteBytesScenario(PopperLocator, PopperRequest, PopperMatches[2], classPath, resourceBytes);
  }

  /** A filter configuration whose only init parameter is `responseServeMethod`. */
  function ConfigWith(value: string): (config: FilterConfig) {
    name => if name == InitParameterName then Present(value) else Empty
  }

  /** init and init_withFallback. */
  method InitScenario() {
    var filter := new WebJarFilter(JqueryLocator);
    assert filter.ServeMethod() == WriteByteResponse;
    filter.Init(ConfigWith("REDIRECT"));
    assert filter.ServeMethod() == Redirect;
    filter.Init(ConfigWith("invalid response method"));
    assert filter.responseServeMethod == Present(WriteByteResponse);
    filter.Init(_ => Empty);
    assert filter.responseServeMethod == Present(WriteByteResponse);
  }
}
