# WebJarFilter, modelled in Dafny

The Cofinpro webjars sample ships a servlet filter, `WebJarFilter`, for requests
under `/webjars/*`. The filter first strips the request URI's leading slashes and
whitespace and splits it on `/`. It then asks the injected `WebJarAssetLocator`
for the full class-path resource of the webjar id (the second segment) and the
file name (the last segment). When the locator reports several matches, it picks
the shortest. Depending on the `responseServeMethod` init parameter, it then
either redirects the client to the versioned `/webjars/...` location and continues
the filter chain, or copies the resource's bytes into the response through a
10 KB buffer and stops the chain.

The model has these modules:

- `JavaOptional` (`optional.dfy`): Java's `Optional`, and any reference that may be `null`.
- `JavaStrings` (`java_strings.dfy`): the parts of `String` and `java.util.regex` the filter relies on. These are the `\s` and `.` character classes, `contains`, and `split("/")`, with its dropping of trailing empty strings.
- `WebJarResolution` (`resolution.dfy`): the pure decisions.
  - The serve method an init parameter selects (`Enum.valueOf` with its fallback).
  - The question put to the locator and the full path a request resolves to. This includes the tie-break among several matches.
  - The `replaceAll("^.*/webjars/", "/webjars/")` rewrite, and whether a redirect is sent.
- `Servlet` (`servlet.dfy`): the resource's `InputStream` as a class. `read` may return fewer bytes than are left. The servlet response and the filter chain together are an `Exchange` that records every redirect, write and chain call in order.
- `Filters` (`filter.dfy`): the filter itself, as a class whose `responseServeMethod` field `init` updates. `doFilter`, `redirectToVersionedWebjar` and the copy loop are methods of `WebJarFilter` that take an `Exchange` as a parameter.
- `FilterScenarios` (`scenarios.dfy`): the cases of the filter's unit tests, proved from the contracts above. The redirect cases are stated for any plain webjar, version and file name (non-empty, no `/`, no `w`, no line terminator), then instantiated with the tests' jquery and popper.js values.

Two parts of the environment are parameters:

- The asset locator is an oracle `(webjarId, filename) -> Lookup`. It returns one full path, the list carried by a `MultipleMatchesException`, or `NotFound` for any other exception it throws.
- The context class loader is a `ClassPath`, a map from a full path to the resource's bytes, or `Empty` where `getResourceAsStream` returns `null`.

## Model

| member | source | states |
|---|---|---|
| WebJarResolution.ValueOf | java-ee-7/src/main/java/de/cofinpro/webjars/filters/WebJarFilter.java:51-54 | `valueOf` gives a constant exactly when the name is that constant's `name()`. Any other name is rejected (the IllegalArgumentException), so `ValueOf` is the inverse of `Name`. |
| WebJarResolution.ServeMethodFor | java-ee-7/src/main/java/de/cofinpro/webjars/filters/WebJarFilter.java:115-125 | The stored serve method is REDIRECT if and only if the parameter is present and exactly `"REDIRECT"`. Otherwise it is WRITE_BYTE_RESPONSE: when the parameter is absent, when it is `"WRITE_BYTE_RESPONSE"`, and when `valueOf` rejects it. |
| Filters.WebJarFilter.Init | java-ee-7/src/main/java/de/cofinpro/webjars/filters/WebJarFilter.java:57-59 | After `init` the field holds the serve method `ServeMethodFor` gives for the configuration's `responseServeMethod` init parameter, which may be absent. |
| Filters.WebJarFilter.ServeMethod | java-ee-7/src/main/java/de/cofinpro/webjars/filters/WebJarFilter.java:77 | The mode `doFilter` acts on. It is a definition without a contract of its own: `DoFilter` states what each mode does, and `InitScenario` shows that a filter never initialised (null field) writes bytes. |
| WebJarResolution.StripLeading | java-ee-7/src/main/java/de/cofinpro/webjars/filters/WebJarFilter.java:134 | The result is a suffix of the URI. Every character removed from the front is a `/` or a `\s` character, and the result does not start with one, so the longest such prefix is removed. |
| JavaStrings.Segments | java-ee-7/src/main/java/de/cofinpro/webjars/filters/WebJarFilter.java:135 | The raw `/`-separated pieces: at least one, none containing `/`, and joined with `/` they give the string back. |
| JavaStrings.Contains | java-ee-7/src/main/java/de/cofinpro/webjars/filters/WebJarFilter.java:94 | `String.contains` as an occurrence at some index. It is a definition without a contract of its own; `ContainsItself` and `NotContainedInShorter` state the facts the redirect decision uses. |
| JavaStrings.SegmentsOfJoin | java-ee-7/src/main/java/de/cofinpro/webjars/filters/WebJarFilter.java:135 | Splitting joined `/`-free pieces gives the pieces back (the inverse of `Join`). |
| JavaStrings.DropTrailingEmpty | java-ee-7/src/main/java/de/cofinpro/webjars/filters/WebJarFilter.java:135 | `split` keeps a prefix of the pieces. Everything dropped is empty and the last kept piece is not, so exactly the trailing empty strings go. |
| JavaStrings.Split | java-ee-7/src/main/java/de/cofinpro/webjars/filters/WebJarFilter.java:135 | `split("/")`. It is a definition without a contract of its own: a string without `/` comes back whole, otherwise it gives `DropTrailingEmpty` of `Segments`. `LocatorQueryBySegments` states what the filter relies on. |
| WebJarResolution.LocatorQuery | java-ee-7/src/main/java/de/cofinpro/webjars/filters/WebJarFilter.java:134-140 | The (webjarId, filename) pair the locator is asked for, or none. It is a definition without a contract of its own; `LocatorQueryBySegments` states its contract. |
| WebJarResolution.LocatorQueryBySegments | java-ee-7/src/main/java/de/cofinpro/webjars/filters/WebJarFilter.java:135-140 | The locator is asked exactly when some segment after the first is non-empty (the array has more than one element). The webjar id is the second segment and the file name the last non-empty one. |
| JavaStrings.JavaLengthBounds | java-ee-7/src/main/java/de/cofinpro/webjars/filters/WebJarFilter.java:153 | `String.length()` counts UTF-16 code units: between one and two per character. |
| JavaStrings.JavaLengthWithoutSupplementary | java-ee-7/src/main/java/de/cofinpro/webjars/filters/WebJarFilter.java:153 | The Java length equals the number of characters exactly when no character lies outside the Basic Multilingual Plane. |
| JavaStrings.JavaLengthOfConcat | java-ee-7/src/main/java/de/cofinpro/webjars/filters/WebJarFilter.java:153 | The Java length of a concatenation is the sum of the lengths. |
| WebJarResolution.ShortestMatch | java-ee-7/src/main/java/de/cofinpro/webjars/filters/WebJarFilter.java:153 | `min` over the matches is present if and only if the list is non-empty. It is then one of the matches, and no match has a smaller Java `length()` (UTF-16 code units). |
| WebJarResolution.ShortestMatchIsLastShortest | java-ee-7/src/main/java/de/cofinpro/webjars/filters/WebJarFilter.java:153 | The comparator answers 1 on equal lengths, so among the matches of least Java `length()` the last one is chosen. |
| WebJarResolution.SupplementaryCharactersCountTwice | java-ee-7/src/main/java/de/cofinpro/webjars/filters/WebJarFilter.java:153 | Lengths are compared as Java does: two emoji (4 code units) are longer than `abc` (3), so `abc` is chosen. |
| WebJarResolution.FullPathToWebJar | java-ee-7/src/main/java/de/cofinpro/webjars/filters/WebJarFilter.java:133-161 | `getFullPathToWebJar`. It is a definition without a contract of its own; its contract is stated by the five lemmas that follow. They cover a URI with no locator query, the dependence on the query alone, and each of the locator's three outcomes. |
| WebJarResolution.ShortUriBypassesLocator | java-ee-7/src/main/java/de/cofinpro/webjars/filters/WebJarFilter.java:136-138 | Without a second part the locator is not consulted, and the result is the stripped URI whatever the locator would say. |
| WebJarResolution.ResolutionDependsOnlyOnQuery | java-ee-7/src/main/java/de/cofinpro/webjars/filters/WebJarFilter.java:139-144 | The locator is consulted only on (second part, last part): two locators that agree there resolve the request alike. |
| WebJarResolution.SingleMatchIsResult | java-ee-7/src/main/java/de/cofinpro/webjars/filters/WebJarFilter.java:144 | A full path returned by the locator is the result unchanged. |
| WebJarResolution.MultipleMatchesGiveShortest | java-ee-7/src/main/java/de/cofinpro/webjars/filters/WebJarFilter.java:146-157 | With several matches the result has the least Java `length()` of them all, and is the last match of that length. An empty match list leaves the stripped URI in place (`isPresent` is false). |
| WebJarResolution.LocatorFailureEscapes | java-ee-7/src/main/java/de/cofinpro/webjars/filters/WebJarFilter.java:142-158 | Resolution fails exactly when the locator is asked and throws something other than MultipleMatchesException, which is not caught. |
| WebJarResolution.FirstLineLength | java-ee-7/src/main/java/de/cofinpro/webjars/filters/WebJarFilter.java:93 | How far `.*` reaches: no line terminator before the returned length, and one at it unless it is the end. |
| WebJarResolution.LastMarkerBefore | java-ee-7/src/main/java/de/cofinpro/webjars/filters/WebJarFilter.java:93 | Finds a `/webjars/` that ends by the bound, and every such occurrence starts at or before it (the last one). |
| WebJarResolution.RedirectLocation | java-ee-7/src/main/java/de/cofinpro/webjars/filters/WebJarFilter.java:93 | `replaceAll("^.*/webjars/", "/webjars/")`, computed through the last `/webjars/` of the first line. It is a definition without a contract of its own; the next three lemmas state its contract against the independent greedy-match specification. |
| WebJarResolution.RedirectLocationReplacesLongestMatch | java-ee-7/src/main/java/de/cofinpro/webjars/filters/WebJarFilter.java:93 | The `replaceAll` semantics. Without a match of `^.*/webjars/` the path is unchanged. Otherwise a longest match exists, as greedy `.*` picks, and it is replaced by `/webjars/`. |
| WebJarResolution.RedirectLocationIsSuffix | java-ee-7/src/main/java/de/cofinpro/webjars/filters/WebJarFilter.java:93 | The redirect location is a suffix of the resolved path. |
| WebJarResolution.RedirectLocationIdempotent | java-ee-7/src/main/java/de/cofinpro/webjars/filters/WebJarFilter.java:93 | Rewriting a redirect location again leaves it unchanged. |
| WebJarResolution.RedirectTarget | java-ee-7/src/main/java/de/cofinpro/webjars/filters/WebJarFilter.java:93-97 | Stated through the regular-expression semantics, not the implementation. A redirect goes to the resolved path with its longest match of `^.*/webjars/` replaced by `/webjars/`, or to the unchanged path when nothing matches. It is sent if and only if the request URI does not already contain that location. |
| WebJarResolution.RedirectTargetIsFinal | java-ee-7/src/main/java/de/cofinpro/webjars/filters/WebJarFilter.java:92-102 | No redirect loop: a request for the location redirected to is not redirected again, whether it resolves to the same full path or to the location itself. |
| Filters.WebJarFilter.RedirectToVersionedWebjar | java-ee-7/src/main/java/de/cofinpro/webjars/filters/WebJarFilter.java:92-102 | The response receives exactly the redirect `RedirectTarget` decides on (none or one `sendRedirect`), and nothing else. |
| Servlet.ResourceStream.Read | java-ee-7/src/main/java/de/cofinpro/webjars/filters/WebJarFilter.java:174 | `InputStream.read(byte[])`: -1 at the end of the stream. Otherwise it reads between 1 and buffer-length bytes, which are the next bytes of the resource, copied to the front of the buffer. The rest of the buffer, and all of it when nothing is read, is left unchanged. |
| Servlet.ResourceStream.Close | java-ee-7/src/main/java/de/cofinpro/webjars/filters/WebJarFilter.java:177 | `close` marks the stream closed and reads nothing more. |
| Filters.WebJarFilter.WriteWebjarContent | java-ee-7/src/main/java/de/cofinpro/webjars/filters/WebJarFilter.java:169-181 | A missing resource (null stream) fails before anything is written. Otherwise the response receives only writes, each of 1 to 10240 bytes, whose concatenation is exactly the resource's bytes, whatever sizes the reads return. |
| Filters.WebJarFilter.DoFilter | java-ee-7/src/main/java/de/cofinpro/webjars/filters/WebJarFilter.java:72-84 | A locator failure escapes before any interaction. In REDIRECT mode: the redirect (if any), then one call to the chain, last. In byte mode (including a field never initialised): the resource's bytes and never the chain, or a failure with no interaction when the resource is missing. |
| FilterScenarios.UnversionedRequestRedirected | java-ee-7/src/test/java/de/cofinpro/webjars/filters/WebJarFilterTest.java:87-97 | For any plain webjar, version and file name, `/webjars/<webjar>/<file>` asks the locator for (webjar, file), resolves to `META-INF/resources/webjars/<webjar>/<version>/<file>`, and is redirected to `/webjars/<webjar>/<version>/<file>`. |
| FilterScenarios.VersionedRequestNotRedirected | java-ee-7/src/test/java/de/cofinpro/webjars/filters/WebJarFilterTest.java:99-107 | For any plain names, `/webjars/<webjar>/<version>/<file>` asks the locator for (webjar, file), resolves to the same resource path and sends no redirect. |
| FilterScenarios.PopperResolvesToShortest | java-ee-7/src/test/java/de/cofinpro/webjars/filters/WebJarFilterTest.java:67-85 | The popper.js request with the test's three matches resolves to the shortest, `.../1.14.1/popper.js`. |

The scenario methods (`RedirectScenario`, `NoInfiniteRedirectScenario`,
`WriteBytesScenario`, `PopperScenario`, `InitScenario`) call `DoFilter` and `Init`
on the tests' inputs. In their bodies they assert the interaction orders the
tests verify: redirect then chain; chain alone; bytes and no chain; REDIRECT, and
the fallback to WRITE_BYTE_RESPONSE.

Two behaviours of the code are worth stating on their own:

- Among equally short matches the comparator makes the last one win
  (`ShortestMatchIsLastShortest`).
- A missing resource makes `getResourceAsStream` return `null`, and the filter
  throws before anything is written. The model ends such a request with the failure
  `ResourceNotFound` and no interaction. There is no 404 response.

## Left out

- Logging (`logger.debug/warn/error`) has no observable effect on the request and is not modelled.
- IOException handling: the model's streams and response never fail, so the `catch (IOException)` blocks around `sendRedirect` and the copy loop are not modelled.
- `destroy` (empty) and the servlet and CDI annotations are not modelled. `WebJarAssetLocatorProducer` and the Spring `MainController` are not part of this model.
- The locator's own search (its class-path index and version selection) is an oracle parameter. Only the three outcomes the filter distinguishes are modelled.
- `Thread.currentThread().getContextClassLoader().getResourceAsStream` is the `ClassPath` parameter.
- Filters.WebJarFilter.WriteWebjarContent: `read` may return any non-empty amount, so the contract bounds each write (1 to 10240 bytes) but does not fix how many writes there are. The nine writes the popper test counts come from its mocked stream, not from the filter.
- The casts to `HttpServletRequest`/`HttpServletResponse` are not modelled; the request is its URI and the response is the `Exchange`.
- FilterScenarios.UnversionedRequestRedirected: stated for names without `/`, line terminators or the letter `w`. This keeps any further `/webjars/` out of the version and file name, so the longest match of the pattern is known. The jquery test values meet this condition.
- FilterScenarios.VersionedRequestNotRedirected: the same name condition as the line above.
