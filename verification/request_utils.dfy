/**
  The pure helpers of `RequestUtils`: user-agent engine classification,
  forward-aware URL reconstruction, parameter serialisation, context-relative
  URIs and the browser-method test. The live servlet request becomes a
  `Request` value holding exactly the strings these helpers read.
 */
module RequestUtils {
  import opened Wrappers
  import opened JavaStrings
  import opened ParamMap
  import opened UrlBuilder
  import opened UrlRoundTrip

  /**
    What the helpers read from the request: its URI and query string, the
    forward attributes a `RequestDispatcher.forward` leaves behind, the
    context path and the `User-Agent` header. `None` stands for Java's null.
   */
  datatype Request = Request(
    requestUri: string,
    queryString: Option<string>,
    forwardRequestUri: Option<string>,
    forwardQueryString: Option<string>,
    contextPath: string,
    userAgent: Option<string>)

  // ---------------------------------------------------------------------
  // User-agent engine classification
  // ---------------------------------------------------------------------

  /** `isGecko()`: "Mozilla" occurs, and neither "compatible" nor "WebKit" does. */
  predicate IsGecko(ua: Option<string>) {
    ua.Some? && Contains(ua.value, "Mozilla")
    && !(Contains(ua.value, "compatible") || Contains(ua.value, "WebKit"))
  }

  /** `isTrident()`: "MSIE" occurs and "Opera" does not. */
  predicate IsTrident(ua: Option<string>) {
    ua.Some? && Contains(ua.value, "MSIE") && !Contains(ua.value, "Opera")
  }

  /** `isPresto()`: "Opera" occurs. */
  predicate IsPresto(ua: Option<string>) {
    ua.Some? && Contains(ua.value, "Opera")
  }

  /** `isWebKit()`: "WebKit" occurs. */
  predicate IsWebKit(ua: Option<string>) {
    ua.Some? && Contains(ua.value, "WebKit")
  }

  /** The four names `getEngine` can answer. */
  const EngineNames: set<string> := {"gecko", "trident", "presto", "webkit"}

  /** `getEngine()`: the first engine whose test holds, in the order gecko, trident, presto, webkit. */
  function GetEngine(ua: Option<string>): (r: Option<string>)
    ensures r.Some? ==> r.value in EngineNames
    ensures ua.None? ==> r.None?
  {
    if IsGecko(ua) then Some("gecko")
    else if IsTrident(ua) then Some("trident")
    else if IsPresto(ua) then Some("presto")
    else if IsWebKit(ua) then Some("webkit")
    else None
  }

  /**
    The answer names an engine whose own test holds, and the tests are tried
    in priority order: gecko wins whenever it holds, trident whenever gecko
    fails, presto whenever both fail, webkit only when the other three fail.
   */
  lemma EngineTestHolds(ua: Option<string>)
    ensures IsGecko(ua) ==> GetEngine(ua) == Some("gecko")
    ensures !IsGecko(ua) && IsTrident(ua) ==> GetEngine(ua) == Some("trident")
    ensures !IsGecko(ua) && !IsTrident(ua) && IsPresto(ua) ==> GetEngine(ua) == Some("presto")
    ensures !IsGecko(ua) && !IsTrident(ua) && !IsPresto(ua) && IsWebKit(ua) ==> GetEngine(ua) == Some("webkit")
    ensures GetEngine(ua) == Some("gecko") ==> IsGecko(ua)
    ensures GetEngine(ua) == Some("trident") ==> IsTrident(ua)
    ensures GetEngine(ua) == Some("presto") ==> IsPresto(ua)
    ensures GetEngine(ua) == Some("webkit") ==> IsWebKit(ua)
    ensures GetEngine(ua).None? <==> !IsGecko(ua) && !IsTrident(ua) && !IsPresto(ua) && !IsWebKit(ua)
  {
  }

  /** A user agent that mentions "compatible" or "WebKit" is never classified as gecko. */
  lemma NeverGeckoWhenCompatible(ua: string)
    requires Contains(ua, "compatible") || Contains(ua, "WebKit")
    ensures GetEngine(Some(ua)) != Some("gecko")
  {
  }

  /**
    A Mozilla user agent that mentions "MSIE" without "compatible" is gecko:
    the gecko test is tried first.
   */
  lemma MsieWithoutCompatibleIsGecko(ua: string)
    requires Contains(ua, "Mozilla") && Contains(ua, "MSIE")
    requires !Contains(ua, "compatible") && !Contains(ua, "WebKit")
    ensures GetEngine(Some(ua)) == Some("gecko")
  {
  }

  /** A Mozilla user agent that mentions "Opera" without "compatible" or "WebKit" is gecko, not presto. */
  lemma MozillaOperaIsGecko(ua: string)
    requires Contains(ua, "Mozilla") && Contains(ua, "Opera")
    requires !Contains(ua, "compatible") && !Contains(ua, "WebKit")
    ensures GetEngine(Some(ua)) == Some("gecko")
  {
  }

  /** A user agent that mentions "Opera" is never classified as trident. */
  lemma NeverTridentWhenOpera(ua: string)
    requires Contains(ua, "Opera")
    ensures GetEngine(Some(ua)) != Some("trident")
  {
  }

  /**
    An Opera that announces itself as a compatible MSIE is presto: the
    "compatible" rules out gecko and the "Opera" rules out trident.
   */
  lemma SpoofingOperaIsPresto(ua: string)
    requires Contains(ua, "compatible") && Contains(ua, "MSIE") && Contains(ua, "Opera")
    ensures GetEngine(Some(ua)) == Some("presto")
  {
  }

  /** "webkit" is answered only for a user agent with "WebKit" and neither "Opera" nor "MSIE". */
  lemma WebKitExcludesOthers(ua: string)
    ensures GetEngine(Some(ua)) == Some("webkit") <==>
      Contains(ua, "WebKit") && !Contains(ua, "Opera") && !Contains(ua, "MSIE")
  {
  }

  // ---------------------------------------------------------------------
  // Forward-aware URL reconstruction
  // ---------------------------------------------------------------------

  /** `getRequestUri()`: the forward URI attribute when it is set, otherwise the request's own URI. */
  function GetRequestUri(req: Request): (r: string)
    ensures req.forwardRequestUri.Some? ==> r == req.forwardRequestUri.value
    ensures req.forwardRequestUri.None? ==> r == req.requestUri
  {
    req.forwardRequestUri.GetOr(req.requestUri)
  }

  /**
    `getQueryString()`: when the forward URI attribute is set, the forward
    query attribute, even when that one is null; otherwise the request's own query.
   */
  function GetQueryString(req: Request): (r: Option<string>)
    ensures req.forwardRequestUri.Some? ==> r == req.forwardQueryString
    ensures req.forwardRequestUri.None? ==> r == req.queryString
  {
    if req.forwardRequestUri.Some? then req.forwardQueryString else req.queryString
  }

  /** `getUrl()`: the URI, then '?' and the query only when there is a query. */
  function GetUrl(req: Request): (r: string)
    ensures GetRequestUri(req) <= r
    ensures GetQueryString(req).None? ==> r == GetRequestUri(req)
    ensures GetQueryString(req).Some? ==> r == GetRequestUri(req) + "?" + GetQueryString(req).value
  {
    var q := GetQueryString(req);
    GetRequestUri(req) + (if q.Some? then "?" + q.value else "")
  }

  /** A forwarded request's own URI and query play no part in its URL. */
  lemma ForwardedUrlIgnoresRequest(req: Request, uri: string, query: Option<string>)
    requires req.forwardRequestUri.Some?
    ensures GetUrl(req.(requestUri := uri, queryString := query)) == GetUrl(req)
  {
  }

  /** A request that was not forwarded ignores the forward query attribute. */
  lemma DirectUrlIgnoresForwardQuery(req: Request, query: Option<string>)
    requires req.forwardRequestUri.None?
    ensures GetUrl(req.(forwardQueryString := query)) == GetUrl(req)
  {
  }

  /**
    When the URI holds no '?', splitting the URL at its first '?' gives back
    the URI and the query, and a URL without '?' had no query.
   */
  lemma UrlSplitsBack(req: Request)
    requires '?' !in GetRequestUri(req)
    ensures Before(GetUrl(req), '?') == GetRequestUri(req)
    ensures '?' in GetUrl(req) <==> GetQueryString(req).Some?
    ensures GetQueryString(req).Some? ==> After(GetUrl(req), '?') == GetQueryString(req).value
  {
    var u := GetRequestUri(req);
    match GetQueryString(req)
    case None =>
    case Some(q) =>
      assert GetUrl(req) == u + ['?'] + q;
      FirstSeparator(u, '?', q);
  }

  /** `getUrlBuilder()`: a builder over the request's URL. */
  function GetUrlBuilder(req: Request, decode: string -> string): Url {
    Parse(GetUrl(req), decode)
  }

  /**
    The request's builder holds the URI's path and extension and the
    parameters of the query string, when the URI holds no '?'.
   */
  lemma UrlBuilderOfRequest(req: Request, decode: string -> string)
    requires '?' !in GetRequestUri(req)
    ensures GetUrlBuilder(req, decode)
      == AddParameters(Url(SplitExtension(GetRequestUri(req)).0, SplitExtension(GetRequestUri(req)).1, []),
                       GetQueryString(req).GetOr(""), decode)
  {
    UrlSplitsBack(req);
  }

  /** The builder of a request without a query string holds its URI and no parameters. */
  lemma UrlBuilderWithoutQuery(req: Request, encode: string -> string, decode: string -> string)
    requires '?' !in GetRequestUri(req) && GetQueryString(req).None?
    requires '.' !in GetRequestUri(req)[SegmentStart(GetRequestUri(req))..]
    ensures GetUrlBuilder(req, decode) == Url(GetRequestUri(req), None, [])
    ensures ToString(GetUrlBuilder(req, decode), encode) == GetRequestUri(req)
  {
    SplitExtensionNone(GetRequestUri(req));
  }

  // ---------------------------------------------------------------------
  // serializeParameters
  // ---------------------------------------------------------------------

  /**
    `serializeParameters(map)`: every `key=encode(value)` pair, keys in the
    map's iteration order and each key's values in order, joined by '&'.
   */
  method SerializeParameters(m: Params, encode: string -> string) returns (r: string)
    ensures r == Join("&", EncodedPairs(m, encode))
  {
    var pairs: seq<string> := [];
    var i := 0;
    while i < |m|
      invariant 0 <= i <= |m|
      invariant pairs == EncodedPairs(m[..i], encode)
    {
      var key := m[i].name;
      var values := m[i].values;
      var j := 0;
      while j < |values|
        invariant 0 <= j <= |values|
        invariant pairs == EncodedPairs(m[..i], encode) + GroupPairs(m[i], encode)[..j]
      {
        pairs := pairs + [key + "=" + encode(values[j])];
        j := j + 1;
      }
      EncodedPairsAppend(m[..i], m[i], encode);
      assert m[..i + 1] == m[..i] + [m[i]];
      i := i + 1;
    }
    assert m[..i] == m;
    r := Join("&", pairs);
  }

  /** Pairs of a table with one more key: the earlier pairs, then the new key's. */
  lemma {:induction false} EncodedPairsAppend(ps: Params, e: Entry, encode: string -> string)
    ensures EncodedPairs(ps + [e], encode) == EncodedPairs(ps, encode) + GroupPairs(e, encode)
    decreases |ps|
  {
    if |ps| == 0 {
      assert ps + [e] == [e];
      assert EncodedPairs([e], encode) == GroupPairs(e, encode) + EncodedPairs([], encode);
    } else {
      EncodedPairsAppend(ps[1..], e, encode);
      assert (ps + [e])[1..] == ps[1..] + [e];
      var g := GroupPairs(ps[0], encode);
      assert EncodedPairs(ps + [e], encode) == g + EncodedPairs(ps[1..] + [e], encode);
      assert EncodedPairs(ps, encode) == g + EncodedPairs(ps[1..], encode);
    }
  }

  /** Every serialised pair holds an '=', so none is empty. */
  lemma {:induction false} PairsNonEmpty(ps: Params, encode: string -> string)
    ensures forall i :: 0 <= i < |EncodedPairs(ps, encode)| ==> '=' in EncodedPairs(ps, encode)[i]
    decreases |ps|
  {
    if |ps| > 0 {
      PairsNonEmpty(ps[1..], encode);
      var g := GroupPairs(ps[0], encode);
      forall i | 0 <= i < |g| ensures '=' in g[i] {
        assert g[i][|ps[0].name|] == '=';
      }
    }
  }

  /** No pair holds an '&' when no key and no encoded value does. */
  lemma {:induction false} PairsAvoidAmpersand(ps: Params, encode: string -> string)
    requires forall i :: 0 <= i < |ps| ==> '&' !in ps[i].name
    requires forall i, j :: 0 <= i < |ps| && 0 <= j < |ps[i].values| ==> '&' !in encode(ps[i].values[j])
    ensures forall i :: 0 <= i < |EncodedPairs(ps, encode)| ==> '&' !in EncodedPairs(ps, encode)[i]
    decreases |ps|
  {
    if |ps| > 0 {
      PairsAvoidAmpersand(ps[1..], encode);
      var g := GroupPairs(ps[0], encode);
      forall i | 0 <= i < |g| ensures '&' !in g[i] {
        assert g[i] == ps[0].name + "=" + encode(ps[0].values[i]);
      }
    }
  }

  /**
    Splitting the serialised text at '&' gives back the pairs, provided no
    key and no encoded value holds an '&'; an empty table gives "", which
    `split` turns into one empty piece.
   */
  lemma SerializedPairsSplitBack(ps: Params, encode: string -> string)
    requires forall i :: 0 <= i < |ps| ==> '&' !in ps[i].name
    requires forall i, j :: 0 <= i < |ps| && 0 <= j < |ps[i].values| ==> '&' !in encode(ps[i].values[j])
    ensures |EncodedPairs(ps, encode)| > 0 ==> Split(Join("&", EncodedPairs(ps, encode)), '&') == EncodedPairs(ps, encode)
    ensures EncodedPairs(ps, encode) == [] ==> Split(Join("&", EncodedPairs(ps, encode)), '&') == [""]
  {
    var pairs := EncodedPairs(ps, encode);
    if pairs == [] {
      SplitSingle("", '&');
      return;
    }
    PairsNonEmpty(ps, encode);
    PairsAvoidAmpersand(ps, encode);
    forall i | 0 <= i < |pairs| ensures |pairs[i]| > 0 {
      assert '=' in pairs[i];
    }
    SplitJoin(pairs, '&');
  }

  /**
    `toString` of a builder without extension and whose keys all hold values
    writes the same text as `serializeParameters`, after the path and a '?'.
   */
  lemma ToStringIsSerialized(b: Url, encode: string -> string)
    requires b.extension.None? && '?' !in b.path && |b.params| > 0
    requires forall i :: 0 <= i < |b.params| ==> |b.params[i].values| > 0
    ensures ToString(b, encode) == b.path + "?" + Join("&", EncodedPairs(b.params, encode))
  {
    AppendGroupsShape(b.path, b.params, encode);
    GroupsArePairs(b.params, encode);
  }

  // ---------------------------------------------------------------------
  // contextRelative
  // ---------------------------------------------------------------------

  /**
    `uri.replaceFirst("^" + contextPath + "/?", "/")` for a context path
    without regex metacharacters: a leading context path, and one '/' right
    after it if there is one, become a single '/'.
   */
  function StripContext(u: string, contextPath: string): (r: string)
    ensures contextPath <= u && "/" <= u[|contextPath|..] ==> u == contextPath + r
    ensures contextPath <= u && !("/" <= u[|contextPath|..]) ==> "/" <= r && u == contextPath + r[1..]
    ensures !(contextPath <= u) ==> r == u
  {
    if contextPath <= u then "/" + TrimLeadingSlash(u[|contextPath|..]) else u
  }

  /**
    `contextRelative(uri, flag)`: a null URI, or one not starting with '/',
    is returned as is; otherwise the context path is stripped, and put back
    in front when `flag` is set.
   */
  function ContextRelative(uri: Option<string>, flag: bool, contextPath: string): (r: Option<string>)
    ensures uri.None? ==> r.None?
    ensures uri.Some? && !("/" <= uri.value) ==> r == uri
    ensures uri.Some? && "/" <= uri.value ==> r.Some?
    ensures uri.Some? && "/" <= uri.value && !flag ==> "/" <= r.value
    ensures uri.Some? && "/" <= uri.value && flag ==> contextPath <= r.value
  {
    match uri
    case None => None
    case Some(u) =>
      if "/" <= u then
        var stripped := StripContext(u, contextPath);
        Some(if flag then contextPath + stripped else stripped)
      else uri
  }

  /** With the flag set, the answer is the context path in front of the flag-less answer. */
  lemma FlagPrefixesContext(u: string, contextPath: string)
    requires "/" <= u
    ensures ContextRelative(Some(u), true, contextPath).value
      == contextPath + ContextRelative(Some(u), false, contextPath).value
  {
  }

  /**
    A URI made of the context path and an absolute path within it is cut
    back to that path, and putting the context back gives the URI again.
   */
  lemma ContextPathRoundTrip(contextPath: string, s: string)
    requires "/" <= contextPath + s && "/" <= s
    ensures ContextRelative(Some(contextPath + s), false, contextPath) == Some(s)
    ensures ContextRelative(Some(contextPath + s), true, contextPath) == Some(contextPath + s)
  {
    var u := contextPath + s;
    assert contextPath <= u;
    assert u[|contextPath|..] == s;
  }

  /**
    The context path `/app` is cut off the front of `/application`, which
    does not lie inside the context, leaving `/lication`.
   */
  lemma ContextPrefixInsideSegment()
    ensures ContextRelative(Some("/application"), false, "/app") == Some("/lication")
    ensures ContextRelative(Some("/application"), true, "/app") == Some("/app/lication")
  {
    var u := "/application";
    assert "/app" <= u;
    assert u[4..] == "lication";
    assert "lication"[0] != '/';
    assert "/" + "lication" == "/lication";
    assert "/app" + "/lication" == "/app/lication";
  }

  /** `u` lies inside the context: the context path is a whole-segment prefix of it. */
  predicate InContext(u: string, contextPath: string) {
    contextPath <= u && (|u| == |contextPath| || u[|contextPath|] == '/')
  }

  /** The context path stripped only at a segment boundary. */
  function StripContextSegment(u: string, contextPath: string): (r: string)
    ensures InContext(u, contextPath) ==> "/" <= r
    ensures !InContext(u, contextPath) ==> r == u
  {
    if InContext(u, contextPath) then StripContext(u, contextPath) else u
  }

  /** `contextRelative` that strips the context path only when the URI lies inside it. */
  function ContextRelativeInSegment(uri: Option<string>, flag: bool, contextPath: string): (r: Option<string>)
    ensures uri.None? ==> r.None?
    ensures uri.Some? && !("/" <= uri.value) ==> r == uri
    ensures uri.Some? && "/" <= uri.value ==> r.Some?
    ensures uri.Some? && "/" <= uri.value && !flag ==> "/" <= r.value
    ensures uri.Some? && "/" <= uri.value && flag ==> contextPath <= r.value
  {
    match uri
    case None => None
    case Some(u) =>
      if "/" <= u then
        var stripped := StripContextSegment(u, contextPath);
        Some(if flag then contextPath + stripped else stripped)
      else uri
  }

  /**
    With the segment test, a URI outside the context is left as it is, and
    one inside it is cut at the boundary: putting the context path back in
    front gives the URI again, save that the bare context path becomes the
    context root `contextPath + "/"`.
   */
  lemma InSegmentStripsWholeSegments(u: string, contextPath: string)
    requires "/" <= u
    ensures !InContext(u, contextPath) ==> ContextRelativeInSegment(Some(u), false, contextPath) == Some(u)
    ensures InContext(u, contextPath) && u != contextPath ==>
      contextPath + ContextRelativeInSegment(Some(u), false, contextPath).value == u
    ensures u == contextPath ==> ContextRelativeInSegment(Some(u), false, contextPath) == Some("/")
  {
    if InContext(u, contextPath) && u != contextPath {
      var s := u[|contextPath|..];
      assert u == contextPath + s;
      assert "/" <= s;
    }
    if u == contextPath {
      assert InContext(u, contextPath);
      assert u[|contextPath|..] == "";
      assert "/" + "" == "/";
    }
  }

  /** The corrected version leaves `/application` alone under the context `/app`. */
  lemma InSegmentKeepsOutsideUri()
    ensures ContextRelativeInSegment(Some("/application"), false, "/app") == Some("/application")
  {
    var u := "/application";
    assert u[4] == 'l';
  }

  // ---------------------------------------------------------------------
  // isMethodBrowserSupported
  // ---------------------------------------------------------------------

  /** `isMethodBrowserSupported(method)`: "GET" or "POST", ignoring case. */
  predicate IsMethodBrowserSupported(verb: Option<string>) {
    EqualsIgnoreCase(verb, "GET") || EqualsIgnoreCase(verb, "POST")
  }

  /** `Character.toUpperCase` on the characters that can match an ASCII upper-case letter other than I and K. */
  function UpperChar(c: char): char {
    if 'a' <= c <= 'z' then (c as int - 32) as char
    else if c == 'ſ' then 'S'
    else c
  }

  /** Every character upper-cased. */
  function Upper(s: string): (r: string)
    ensures |r| == |s|
    ensures forall i :: 0 <= i < |s| ==> r[i] == UpperChar(s[i])
  {
    seq(|s|, i requires 0 <= i < |s| => UpperChar(s[i]))
  }

  /** Against an upper-case ASCII letter, the case-blind test is equality after upper-casing. */
  lemma SameIgnoringCaseIsUpper(c: char, u: char)
    requires 'A' <= u <= 'Z'
    ensures SameIgnoringCase(c, u) <==> UpperChar(c) == u
  {
  }

  /**
    The browser-supported methods are exactly those whose upper-case form is
    "GET" or "POST".
   */
  lemma {:induction false} BrowserMethodIsUpperGetOrPost(verb: Option<string>)
    ensures IsMethodBrowserSupported(verb) <==>
      verb.Some? && (Upper(verb.value) == "GET" || Upper(verb.value) == "POST")
  {
    if verb.Some? {
      var m := verb.value;
      forall i | 0 <= i < |m| && |m| == 3 ensures SameIgnoringCase(m[i], "GET"[i]) <==> Upper(m)[i] == "GET"[i] {
        SameIgnoringCaseIsUpper(m[i], "GET"[i]);
      }
      forall i | 0 <= i < |m| && |m| == 4 ensures SameIgnoringCase(m[i], "POST"[i]) <==> Upper(m)[i] == "POST"[i] {
        SameIgnoringCaseIsUpper(m[i], "POST"[i]);
      }
    }
  }

  /** Lower-case and mixed-case spellings are supported; "PUT" and a null method are not. */
  lemma BrowserMethodExamples()
    ensures IsMethodBrowserSupported(Some("get"))
    ensures IsMethodBrowserSupported(Some("PoSt"))
    ensures !IsMethodBrowserSupported(Some("PUT"))
    ensures !IsMethodBrowserSupported(None)
  {
    assert !SameIgnoringCase("PUT"[1], "GET"[1]);
  }
}
