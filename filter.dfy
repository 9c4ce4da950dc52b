// The servlet filter that serves or redirects requests under /webjars/.
module Filters {
  import opened JavaOptional
  import opened JavaStrings
  import opened WebJarResolution
  import opened Servlet

  /** Size of the copy buffer: 10 KB. */
  const BufferSize := 10240

  /** Why `doFilter` ends with an exception instead of normally. */
  datatype Failure =
    | LocatorFailed      // the locator threw something other than MultipleMatchesException
    | ResourceNotFound   // the class loader has no such resource and the stream is null

  /** The class loader's resources by full path: Empty where `getResourceAsStream` gives null. */
  type ClassPath = string -> Optional<seq<bv8>>

  /** `FilterConfig.getInitParameter`: Empty where it returns null. */
  type FilterConfig = string -> Optional<string>

  /** The interactions a redirect-mode request adds before the chain is continued. */
  function RedirectInteractions(requestUri: string, fullPath: string): (log: seq<Interaction>)
  {
    match RedirectTarget(requestUri, fullPath)
    case Empty => []
    case Present(loc) => [SentRedirect(loc)]
  }

  /**
   * What `doFilter` does with a resolution of the request, in the given serve
   * mode, taking the exchange's log from `before` to `after`. A locator failure
   * escapes before anything is sent. In redirect mode the redirect (if any) is
   * sent, then the chain is continued, once and last. In byte-write mode a missing
   * resource escapes before anything is sent; otherwise its bytes are written in
   * chunks of at most one buffer and the chain is never continued.
   */
  ghost predicate Served(resolution: Resolution, mode: ResponseServeMethod, requestUri: string, classPath: ClassPath,
                         before: seq<Interaction>, after: seq<Interaction>, failure: Optional<Failure>) {
    match resolution
    case LocatorThrew => failure == Present(LocatorFailed) && after == before
    case Resolved(path) =>
      if mode == Redirect then
        failure == Empty && after == before + RedirectInteractions(requestUri, path) + [ContinuedChain]
      else if classPath(path).Empty? then
        failure == Present(ResourceNotFound) && after == before
      else
        failure == Empty && AppendsBody(before, after, classPath(path).value, BufferSize)
  }

  class WebJarFilter {
    /** The injected `WebJarAssetLocator`. */
    const locate: Locator
    /** Set by `init`; Empty (Java's null) until then. */
    var responseServeMethod: Optional<ResponseServeMethod>

    constructor (locate: Locator)
      ensures this.locate == locate && responseServeMethod == Empty
    {
      this.locate := locate;
      responseServeMethod := Empty;
    }

    /** `init` / `initResponseServeMethod`: reads the `responseServeMethod` init parameter, which may be absent. */
    method Init(config: FilterConfig)
      modifies this
      ensures responseServeMethod == Present(ServeMethodFor(config(InitParameterName)))
    {
      var initParameter := config(InitParameterName);
      var name := initParameter.OrElse(WriteByteResponse.Name());
      var parsed := ValueOf(name);
      if parsed.Present? {
        responseServeMethod := parsed;
      } else {
        responseServeMethod := Present(WriteByteResponse);
      }
    }

    /**
     * The serve method `doFilter` acts on: REDIRECT only when the field holds
     * REDIRECT (`REDIRECT.equals(field)` is false for null).
     */
    function ServeMethod(): (mode: ResponseServeMethod)
      reads this
    {
      if responseServeMethod == Present(Redirect) then Redirect else WriteByteResponse
    }

    /**
     * `doFilter`. In redirect mode: redirect unless the request is already for the
     * redirect location, then continue the chain, once and last. In byte-write mode:
     * write the resource's bytes in chunks and never continue the chain.
     */
    method DoFilter(requestUri: string, classPath: ClassPath, exchange: Exchange) returns (failure: Optional<Failure>)
      modifies exchange
      ensures Served(FullPathToWebJar(requestUri, locate), ServeMethod(), requestUri, classPath,
                     old(exchange.log), exchange.log, failure)
    {
      var resolution := FullPathToWebJar(requestUri, locate);
      ghost var before := exchange.log;
      if resolution.LocatorThrew? {
        return Present(LocatorFailed);
      }
      var fullPathToWebjar := resolution.path;
      if ServeMethod() == Redirect {
        RedirectToVersionedWebjar(fullPathToWebjar, requestUri, exchange);
        exchange.ContinueChain();
        failure := Empty;
      } else {
        failure := WriteWebjarContent(fullPathToWebjar, classPath, exchange);
      }
      assert Served(resolution, ServeMethod(), requestUri, classPath, before, exchange.log, failure);
    }

    /** `redirectToVersionedWebjar`. */
    method RedirectToVersionedWebjar(fullPathToWebjar: string, requestUri: string, exchange: Exchange)
      modifies exchange
      ensures exchange.log == old(exchange.log) + RedirectInteractions(requestUri, fullPathToWebjar)
    {
      var redirectLocation := RedirectLocation(fullPathToWebjar);
      var shouldRedirect := !Contains(requestUri, redirectLocation);
      if shouldRedirect {
        exchange.SendRedirect(redirectLocation);
      }
    }

    /**
     * `writeWebjarContentToServletResponseOutputStream`: copies the resource to
     * the response in writes of at most one buffer each, until the stream is
     * exhausted, then closes the stream.
     */
    method WriteWebjarContent(fullPathToWebjar: string, classPath: ClassPath, exchange: Exchange)
      returns (failure: Optional<Failure>)
      modifies exchange
      ensures classPath(fullPathToWebjar).Empty? ==>
                failure == Present(ResourceNotFound) && exchange.log == old(exchange.log)
      ensures classPath(fullPathToWebjar).Present? ==>
                failure == Empty &&
                AppendsBody(old(exchange.log), exchange.log, classPath(fullPathToWebjar).value, BufferSize)
    {
      var resource := classPath(fullPathToWebjar);
      if resource.Empty? {
        return Present(ResourceNotFound);
      }
      var body := resource.value;
      var inputStream := new ResourceStream(body);
      var buffer := new bv8[BufferSize];
      ghost var before := exchange.log;
      var len := inputStream.Read(buffer);
      assert exchange.log[|before|..] == [];
      while len != -1
        invariant inputStream.Valid() && !inputStream.closed && inputStream.content == body
        invariant WritesSince(before, exchange.log, BufferSize)
        invariant len == -1 || 1 <= len <= BufferSize
        invariant len == -1 ==> inputStream.position == |body|
        invariant Written(exchange.log[|before|..]) + (if len == -1 then [] else buffer[..len]) == body[..inputStream.position]
        decreases |body| - inputStream.position + (if len == -1 then 0 else 1)
      {
        ghost var log := exchange.log;
        ghost var chunk := buffer[..len];
        exchange.Write(buffer, 0, len);
        WritesSinceAfterWrite(before, log, chunk, BufferSize);
        len := inputStream.Read(buffer);
      }
      assert body[..inputStream.position] == body;
      assert AppendsBody(before, exchange.log, body, BufferSize);
      inputStream.Close();
      failure := Empty;
    }
  }
}
