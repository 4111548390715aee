/** The cross-origin middleware: which request origins are allowed, which
    response headers an allowed origin receives, and how preflight requests
    end. */
module Cors {
  import opened Common
  import opened Strings

  /** The middleware settings taken from the server configuration. */
  datatype CorsConfig = CorsConfig(allowOrigins: seq<string>, allowMethods: seq<string>,
                                   allowHeaders: seq<string>, maxAge: int, credentials: bool)

  /** How the middleware lets the request go on: aborted with a status, or
      passed to the next handler. */
  datatype Flow = AbortWithStatus(status: nat) | Next

  /** The headers the middleware sets and how the request continues. */
  datatype CorsResponse = CorsResponse(headers: map<string, string>, flow: Flow)

  const StatusNoContent: nat := 204
  const LocalhostPrefix: string := "http://localhost:"

  const AllowOriginHeader: string := "Access-Control-Allow-Origin"
  const AllowMethodsHeader: string := "Access-Control-Allow-Methods"
  const AllowHeadersHeader: string := "Access-Control-Allow-Headers"
  const MaxAgeHeader: string := "Access-Control-Max-Age"
  const AllowCredentialsHeader: string := "Access-Control-Allow-Credentials"

  /** Joins with ", " between items. */
  method JoinStrings(items: seq<string>) returns (result: string)
    ensures result == Join(items, ", ")
  {
    if |items| == 0 {
      return "";
    }
    result := items[0];
    var i := 1;
    while i < |items|
      invariant 1 <= i <= |items|
      invariant result + (if i < |items| then ", " + Join(items[i..], ", ") else "") == Join(items, ", ")
    {
      JoinStep(items, i);
      result := result + ", " + items[i];
      i := i + 1;
    }
  }

  /** Peeling the first item off a tail of the join. */
  lemma JoinStep(items: seq<string>, i: nat)
    requires 1 <= i < |items|
    ensures Join(items[i..], ", ") == items[i] + (if i + 1 < |items| then ", " + Join(items[i + 1..], ", ") else "")
  {
    if i + 1 < |items| {
      assert items[i..][1..] == items[i + 1..];
    }
  }

  /** Whether the value is one of the items. */
  method Contains(items: seq<string>, value: string) returns (found: bool)
    ensures found <==> value in items
  {
    var i := 0;
    while i < |items|
      invariant 0 <= i <= |items|
      invariant value !in items[..i]
    {
      if items[i] == value {
        return true;
      }
      assert items[..i + 1] == items[..i] + [items[i]];
      i := i + 1;
    }
    assert items[..i] == items;
    return false;
  }

  /** An origin is allowed when it is a localhost address on a server in
      debug mode, or one of the configured origins. */
  predicate OriginAllowed(cfg: CorsConfig, origin: string, debug: bool)
  {
    (debug && HasPrefix(origin, LocalhostPrefix)) || origin in cfg.allowOrigins
  }

  /** Sets a response header as gin's `Context.Header` does: an empty
      value removes the header instead. */
  function SetHeader(headers: map<string, string>, key: string, value: string): (r: map<string, string>)
    ensures value != "" ==> key in r && r[key] == value
    ensures value == "" ==> key !in r
    ensures forall k :: k != key ==> (k in r <==> k in headers) && (k in r ==> r[k] == headers[k])
  {
    if value == "" then headers - {key} else headers[key := value]
  }

  /** The headers set for a request from `origin`: none unless the origin
      is allowed and not empty; otherwise the origin echoed back, the
      configured methods and headers when those lists join to something
      non-empty, the maximum age, and the credentials flag when credentials
      are enabled. */
  function CorsHeaders(cfg: CorsConfig, origin: string, debug: bool): (h: map<string, string>)
    ensures h != map[] <==> OriginAllowed(cfg, origin, debug) && origin != ""
    ensures h != map[] ==>
      && AllowOriginHeader in h && h[AllowOriginHeader] == origin
      && MaxAgeHeader in h && h[MaxAgeHeader] == Itoa(cfg.maxAge)
    ensures AllowMethodsHeader in h <==> h != map[] && Join(cfg.allowMethods, ", ") != ""
    ensures AllowMethodsHeader in h ==> h[AllowMethodsHeader] == Join(cfg.allowMethods, ", ")
    ensures AllowHeadersHeader in h <==> h != map[] && Join(cfg.allowHeaders, ", ") != ""
    ensures AllowHeadersHeader in h ==> h[AllowHeadersHeader] == Join(cfg.allowHeaders, ", ")
    ensures AllowCredentialsHeader in h <==>
      OriginAllowed(cfg, origin, debug) && origin != "" && cfg.credentials
    ensures AllowCredentialsHeader in h ==> h[AllowCredentialsHeader] == "true"
    ensures h.Keys <= {AllowOriginHeader, AllowMethodsHeader, AllowHeadersHeader, MaxAgeHeader, AllowCredentialsHeader}
  {
    var allowOrigin := if OriginAllowed(cfg, origin, debug) then origin else "";
    if allowOrigin == "" then map[]
    else
      HeaderNamesDistinct();
      var withOrigin := SetHeader(map[], AllowOriginHeader, allowOrigin);
      var withMethods := SetHeader(withOrigin, AllowMethodsHeader, Join(cfg.allowMethods, ", "));
      var withHeaders := SetHeader(withMethods, AllowHeadersHeader, Join(cfg.allowHeaders, ", "));
      var withMaxAge := SetHeader(withHeaders, MaxAgeHeader, Itoa(cfg.maxAge));
      assert AllowOriginHeader in withMaxAge;
      if cfg.credentials then SetHeader(withMaxAge, AllowCredentialsHeader, "true") else withMaxAge
  }

  /** The five header names are pairwise different. */
  lemma HeaderNamesDistinct()
    ensures AllowOriginHeader != AllowMethodsHeader && AllowOriginHeader != AllowHeadersHeader
    ensures AllowOriginHeader != MaxAgeHeader && AllowOriginHeader != AllowCredentialsHeader
    ensures AllowMethodsHeader != AllowHeadersHeader && AllowMethodsHeader != MaxAgeHeader
    ensures AllowMethodsHeader != AllowCredentialsHeader
    ensures AllowHeadersHeader != MaxAgeHeader && AllowHeadersHeader != AllowCredentialsHeader
    ensures MaxAgeHeader != AllowCredentialsHeader
  {
    assert |AllowOriginHeader| == 27 && |AllowMethodsHeader| == 28 && |AllowHeadersHeader| == 28;
    assert |MaxAgeHeader| == 22 && |AllowCredentialsHeader| == 32;
    assert AllowMethodsHeader[21] == 'M' && AllowHeadersHeader[21] == 'H';
  }

  /** The decision for one request, with `joinStrings` and `contains`
      replaced by the definitions `JoinStrings` and `Contains` compute. The
      server mode is a parameter; logging is left out. A preflight request
      ends with 204 No Content, any other goes on to the next handler;
      both carry the headers `CorsHeaders` describes. */
  function HandleCors(cfg: CorsConfig, origin: string, requestMethod: string, debug: bool): (r: CorsResponse)
    ensures r.headers != map[] <==> OriginAllowed(cfg, origin, debug) && origin != ""
    ensures r.headers != map[] ==> AllowOriginHeader in r.headers && r.headers[AllowOriginHeader] == origin
    ensures AllowCredentialsHeader in r.headers <==>
      OriginAllowed(cfg, origin, debug) && origin != "" && cfg.credentials
    ensures requestMethod == "OPTIONS" <==> r.flow == AbortWithStatus(StatusNoContent)
    ensures requestMethod != "OPTIONS" <==> r.flow == Next
  {
    var headers := CorsHeaders(cfg, origin, debug);
    if requestMethod == "OPTIONS" then CorsResponse(headers, AbortWithStatus(StatusNoContent))
    else CorsResponse(headers, Next)
  }

  /** A preflight request gets the same headers as any other request from
      that origin; only the flow differs. */
  lemma PreflightMatchesRequest(cfg: CorsConfig, origin: string, requestMethod: string, debug: bool)
    ensures HandleCors(cfg, origin, "OPTIONS", debug).headers == HandleCors(cfg, origin, requestMethod, debug).headers
  {
  }

  /** An origin outside the configured list is refused on a production
      server, even a localhost one. */
  lemma ProductionRefusesUnlistedOrigins(cfg: CorsConfig, origin: string, requestMethod: string)
    requires origin !in cfg.allowOrigins
    ensures HandleCors(cfg, origin, requestMethod, false).headers == map[]
  {
  }
}
