/**
  The v2 registry `Client`: its configuration record, the records it
  deserialises, request signing, the two reachability probes, the login
  handshake and the catalog request.

  Network exchanges are not performed here. Every operation receives the
  `Reply` its request would get (or a transport failure) as an argument,
  and it returns a `Call`: the requests it sent, in order, and what it
  returned. hyper's URL check (`Uri::from_str`) and serde_json's
  deserialisation are not modelled either; they are passed in as
  functions (`uriOk`, `decodeToken`, `decodeCatalog`).
 */
module Registry {
  import opened Wrappers
  import opened Text
  import opened Http
  import opened ClientErrors
  import Utf8
  import Challenge

  newtype u32 = n: int | 0 <= n < 0x1_0000_0000

  /** The client's configuration; `token` is the one part that login changes */
  datatype Client = Client(
    baseUrl: string,
    credentials: Option<(string, string)>,
    index: string,
    userAgent: Option<string>,
    token: Option<string>)

  /** Body of a successful token response */
  datatype TokenAuth = TokenAuth(
    token: string,
    expiresIn: Option<u32>,
    issuedAt: Option<string>,
    refreshToken: Option<string>)

  /** Body of a successful catalog response */
  datatype Catalog = Catalog(repositories: seq<string>)

  /** One entry of the registry's error envelope */
  datatype ApiError = ApiError(code: string, message: string, detail: string)

  /** The registry's error envelope */
  datatype Errors = Errors(errors: seq<ApiError>)

  /** The requests an operation sent, in order, and what it returned */
  datatype Call<T> = Call(sent: seq<Request>, result: Result<T, Error>)

  const ApiVersionHeader: string := "Docker-Distribution-API-Version"
  const ApiVersion: string := "registry/2.0"
  const AuthenticateHeader: string := "www-authenticate"

  /** The URL of the base endpoint, probed by is_v2_supported, is_auth and login */
  function BaseEndpoint(c: Client): string {
    c.baseUrl + "/v2/"
  }

  /** serde's parse of a response body is only reached through `from_utf8(..).unwrap()`
      on a 200 response; that unwrap must not panic */
  predicate BodyIsText(reply: Reply) {
    reply.Received? && reply.response.status == 200 ==> Utf8.IsValid(reply.response.body)
  }

  /* ---------------------------------------------------------------------
     Request signing
     --------------------------------------------------------------------- */

  /** The token a request presents as `Authorization: Bearer <token>` */
  function PresentedToken(req: Request): Option<string> {
    match req.authorization
    case Some(Bearer(t)) => Some(t)
    case _ => None
  }

  /** `new_request`: the held token as a Bearer credential and the configured
      user agent, nothing else */
  function NewRequest(c: Client, verb: Method, url: string): (req: Request)
    ensures req.verb == verb && req.url == url
    ensures req.authorization.Some? <==> c.token.Some?
    ensures PresentedToken(req) == c.token
    ensures req.userAgent == c.userAgent
  {
    Request(verb, url, if c.token.Some? then Some(Bearer(c.token.value)) else None, c.userAgent)
  }

  /* ---------------------------------------------------------------------
     Reachability probes
     --------------------------------------------------------------------- */

  /** The response test of is_v2_supported */
  function SupportsV2(resp: Response): (b: bool)
    ensures b <==> (resp.status == 200 || resp.status == 401)
                   && Lines(resp.headers, ApiVersionHeader) == [Utf8.Encode(ApiVersion)]
  {
    RawIsSingleLine(resp.headers, ApiVersionHeader, ApiVersion);
    match GetRaw(resp.headers, ApiVersionHeader)
    case Some(x) =>
      if resp.status == 200 then RawIs(x, ApiVersion)
      else if resp.status == 401 then RawIs(x, ApiVersion)
      else false
    case None => false
  }

  /** Other headers and the body do not affect SupportsV2 */
  lemma SupportsV2IgnoresOtherHeaders(resp: Response, f: Field)
    requires !SameName(f.name, ApiVersionHeader)
    ensures SupportsV2(resp.(headers := resp.headers + [f])) == SupportsV2(resp)
  {
    LinesOther(resp.headers, f, ApiVersionHeader);
  }

  /** `is_v2_supported`: a bad URL fails before anything is sent; after that only
      a transport failure is an error and every response is a yes or a no */
  function IsV2Supported(c: Client, uriOk: string -> bool, reply: Reply): (call: Call<bool>)
    ensures call.sent == [] <==> !uriOk(BaseEndpoint(c))
    ensures call.sent != [] ==> call.sent == [NewRequest(c, Get, BaseEndpoint(c))]
    ensures call.result.Failure? <==> !uriOk(BaseEndpoint(c)) || reply.TransportFailed?
    ensures !uriOk(BaseEndpoint(c)) ==> call.result == Failure(InvalidUri)
    ensures uriOk(BaseEndpoint(c)) && reply.TransportFailed? ==> call.result == Failure(Transport)
    ensures call.result == Success(true) <==>
              uriOk(BaseEndpoint(c)) && reply.Received?
              && (reply.response.status == 200 || reply.response.status == 401)
              && Lines(reply.response.headers, ApiVersionHeader) == [Utf8.Encode(ApiVersion)]
  {
    var url := BaseEndpoint(c);
    if !uriOk(url) then Call([], Failure(InvalidUri))
    else
      var result := match reply
        case TransportFailed => Failure(Transport)
        case Received(resp) => Success(SupportsV2(resp));
      Call([NewRequest(c, Get, url)], result)
  }

  /** `is_auth`: yes exactly when the base endpoint answers 200 */
  function IsAuth(c: Client, uriOk: string -> bool, reply: Reply): (call: Call<bool>)
    ensures call.sent == [] <==> !uriOk(BaseEndpoint(c))
    ensures call.sent != [] ==> call.sent == [NewRequest(c, Get, BaseEndpoint(c))]
    ensures call.result.Failure? <==> !uriOk(BaseEndpoint(c)) || reply.TransportFailed?
    ensures !uriOk(BaseEndpoint(c)) ==> call.result == Failure(InvalidUri)
    ensures uriOk(BaseEndpoint(c)) && reply.TransportFailed? ==> call.result == Failure(Transport)
    ensures call.result == Success(true) <==>
              uriOk(BaseEndpoint(c)) && reply.Received? && reply.response.status == 200
  {
    var url := BaseEndpoint(c);
    if !uriOk(url) then Call([], Failure(InvalidUri))
    else
      var result := match reply
        case TransportFailed => Failure(Transport)
        case Received(resp) => Success(resp.status == 200);
      Call([NewRequest(c, Get, url)], result)
  }

  /* ---------------------------------------------------------------------
     Login
     --------------------------------------------------------------------- */

  /** What the probe of the base endpoint tells login to do next */
  datatype Probe = NoAuthNeeded | Challenged(raw: Utf8.Bytes)

  /** The checks on the probe response, in the source's order: the
      `www-authenticate` header must be there, and as one line, before the
      status is looked at */
  function ProbeDecision(resp: Response): (r: Result<Probe, Error>)
    ensures r == Failure(MissingHeader) <==> Lines(resp.headers, AuthenticateHeader) == []
    ensures r == Failure(MultipleHeaders) <==> |Lines(resp.headers, AuthenticateHeader)| > 1
    ensures |Lines(resp.headers, AuthenticateHeader)| == 1 ==>
              r == (if resp.status == 200 then Success(NoAuthNeeded)
                    else if resp.status == 401 then Success(Challenged(Lines(resp.headers, AuthenticateHeader)[0]))
                    else Failure(UnexpectedStatus))
  {
    match GetRaw(resp.headers, AuthenticateHeader)
    case None => Failure(MissingHeader)
    case Some(raw) =>
      match One(raw)
      case None => Failure(MultipleHeaders)
      case Some(v) =>
        if resp.status == 200 then Success(NoAuthNeeded)
        else if resp.status == 401 then Success(Challenged(v))
        else Failure(UnexpectedStatus)
  }

  /** The credentials as a Basic credential, if configured */
  function BasicOf(credentials: Option<(string, string)>): Option<Credential> {
    match credentials
    case Some((user, password)) => Some(Basic(user, password))
    case None => None
  }

  /** The token request: a bare request to the token endpoint carrying the
      Basic credentials, if any, and no user agent */
  function TokenRequest(c: Client, url: string): (req: Request)
    ensures req.url == url
    ensures req.authorization.Some? <==> c.credentials.Some?
    ensures c.credentials.Some? ==>
              req.authorization == Some(Basic(c.credentials.value.0, c.credentials.value.1))
    ensures PresentedToken(req) == None
    ensures req.userAgent == None
  {
    Request(Get, url, BasicOf(c.credentials), None)
  }

  /** The token exchange: a 200 response whose body deserialises replaces the
      client's token; everything else fails */
  function Exchange(c: Client, reply: Reply, decodeToken: Utf8.Bytes -> Option<TokenAuth>): (r: Result<Client, Error>)
    requires BodyIsText(reply)
    ensures r.Success? <==>
              reply.Received? && reply.response.status == 200 && decodeToken(reply.response.body).Some?
    ensures r.Success? ==> r.value == c.(token := Some(decodeToken(reply.response.body).value.token))
    ensures reply.Received? && reply.response.status != 200 ==> r == Failure(BadStatus)
  {
    match reply
    case TransportFailed => Failure(Transport)
    case Received(resp) =>
      if resp.status != 200 then Failure(BadStatus)
      else match decodeToken(resp.body)
        case None => Failure(Json)
        case Some(t) => Success(c.(token := Some(t.token)))
  }

  /** `login`: probe the base endpoint, read the challenge, build the token
      endpoint, exchange. The result is the client with its token replaced, or
      the client unchanged when the registry needs no token. */
  function Login(c: Client, scopes: seq<string>, uriOk: string -> bool,
                 probe: Reply, exchange: Reply,
                 decodeToken: Utf8.Bytes -> Option<TokenAuth>): (call: Call<Client>)
    requires BodyIsText(exchange)
    ensures |call.sent| <= 2
    ensures call.sent == [] <==> !uriOk(BaseEndpoint(c))
    ensures call.sent == [] ==> call.result == Failure(InvalidUri)
    ensures call.sent != [] ==> call.sent[0] == NewRequest(c, Get, BaseEndpoint(c))
    ensures |call.sent| == 2 ==> call.sent[1] == TokenRequest(c, call.sent[1].url)
    ensures forall i :: 0 <= i < |call.sent| ==>
              (call.sent[i].authorization.Some? && call.sent[i].authorization.value.Basic?
               ==> i == 1 && c.credentials.Some?)
    ensures call.result.Success? ==> call.result.value.(token := c.token) == c
    ensures call.result.Success? && |call.sent| < 2 ==> call.result.value == c
    ensures call.result.Success? && |call.sent| == 2 ==>
              exchange.Received? && exchange.response.status == 200
              && decodeToken(exchange.response.body).Some?
              && call.result.value.token == Some(decodeToken(exchange.response.body).value.token)
  {
    var url := BaseEndpoint(c);
    if !uriOk(url) then Call([], Failure(InvalidUri))
    else
      var probeReq := NewRequest(c, Get, url);
      match probe
      case TransportFailed => Call([probeReq], Failure(Transport))
      case Received(resp) =>
        match ProbeDecision(resp)
        case Failure(e) => Call([probeReq], Failure(e))
        case Success(NoAuthNeeded) => Call([probeReq], Success(c))
        case Success(Challenged(raw)) =>
          match Challenge.Parse(raw)
          case Failure(e) => Call([probeReq], Failure(e))
          case Success(ch) =>
            var endpoint := Challenge.TokenEndpoint(ch, scopes);
            if !uriOk(endpoint) then Call([probeReq], Failure(InvalidUri))
            else Call([probeReq, TokenRequest(c, endpoint)], Exchange(c, exchange, decodeToken))
  }

  /** The client as `&mut self` is left by login: changed only on success */
  function After(c: Client, call: Call<Client>): Client {
    if call.result.Success? then call.result.value else c
  }

  /** A missing `www-authenticate` header fails login whatever the status, even 200 */
  lemma LoginNeedsHeaderFirst(c: Client, scopes: seq<string>, uriOk: string -> bool,
                              resp: Response, exchange: Reply,
                              decodeToken: Utf8.Bytes -> Option<TokenAuth>)
    requires BodyIsText(exchange) && uriOk(BaseEndpoint(c))
    requires Lines(resp.headers, AuthenticateHeader) == []
    ensures var call := Login(c, scopes, uriOk, Received(resp), exchange, decodeToken);
      call.result == Failure(MissingHeader) && |call.sent| == 1
  {
  }

  /** A `www-authenticate` header sent as several lines fails login whatever the status */
  lemma LoginRejectsRepeatedHeader(c: Client, scopes: seq<string>, uriOk: string -> bool,
                                   resp: Response, exchange: Reply,
                                   decodeToken: Utf8.Bytes -> Option<TokenAuth>)
    requires BodyIsText(exchange) && uriOk(BaseEndpoint(c))
    requires |Lines(resp.headers, AuthenticateHeader)| > 1
    ensures var call := Login(c, scopes, uriOk, Received(resp), exchange, decodeToken);
      call.result == Failure(MultipleHeaders) && |call.sent| == 1
  {
  }

  /** With the header present once, a 200 probe is a successful login that asks
      for no token and leaves the client as it was; a status other than 200 or
      401 is an error */
  lemma LoginWithoutChallenge(c: Client, scopes: seq<string>, uriOk: string -> bool,
                              resp: Response, exchange: Reply,
                              decodeToken: Utf8.Bytes -> Option<TokenAuth>)
    requires BodyIsText(exchange) && uriOk(BaseEndpoint(c))
    requires |Lines(resp.headers, AuthenticateHeader)| == 1
    requires resp.status != 401
    ensures var call := Login(c, scopes, uriOk, Received(resp), exchange, decodeToken);
      && |call.sent| == 1
      && call.result == (if resp.status == 200 then Success(c) else Failure(UnexpectedStatus))
  {
  }

  /** A 401 probe whose one challenge line is not UTF-8, or holds an item the
      reading does not accept, fails login with that error before any token
      is asked for */
  lemma LoginBadChallenge(c: Client, scopes: seq<string>, uriOk: string -> bool,
                          resp: Response, exchange: Reply,
                          decodeToken: Utf8.Bytes -> Option<TokenAuth>)
    requires BodyIsText(exchange) && uriOk(BaseEndpoint(c))
    requires resp.status == 401 && |Lines(resp.headers, AuthenticateHeader)| == 1
    requires Challenge.Parse(Lines(resp.headers, AuthenticateHeader)[0]).Failure?
    ensures var call := Login(c, scopes, uriOk, Received(resp), exchange, decodeToken);
      && call.sent == [NewRequest(c, Get, BaseEndpoint(c))]
      && (call.result == Failure(NotUtf8) || call.result == Failure(UnsupportedKey))
      && (call.result == Failure(NotUtf8) <==> !Utf8.IsValid(Lines(resp.headers, AuthenticateHeader)[0]))
  {
  }

  /** A token endpoint that is not a valid URL fails login after the probe alone */
  lemma LoginBadTokenEndpoint(c: Client, scopes: seq<string>, uriOk: string -> bool,
                              resp: Response, raw: Utf8.Bytes, ch: Challenge.AuthChallenge,
                              exchange: Reply,
                              decodeToken: Utf8.Bytes -> Option<TokenAuth>)
    requires BodyIsText(exchange) && uriOk(BaseEndpoint(c))
    requires resp.status == 401
    requires Lines(resp.headers, AuthenticateHeader) == [raw]
    requires Challenge.Parse(raw) == Success(ch)
    requires !uriOk(Challenge.TokenEndpoint(ch, scopes))
    ensures var call := Login(c, scopes, uriOk, Received(resp), exchange, decodeToken);
      && call.sent == [NewRequest(c, Get, BaseEndpoint(c))]
      && call.result == Failure(InvalidUri)
  {
  }

  /** A probe that gets no response fails login with the transport error
      after that one request */
  lemma LoginProbeUnanswered(c: Client, scopes: seq<string>, uriOk: string -> bool,
                             exchange: Reply,
                             decodeToken: Utf8.Bytes -> Option<TokenAuth>)
    requires BodyIsText(exchange) && uriOk(BaseEndpoint(c))
    ensures var call := Login(c, scopes, uriOk, TransportFailed, exchange, decodeToken);
      && call.sent == [NewRequest(c, Get, BaseEndpoint(c))]
      && call.result == Failure(Transport)
  {
  }

  /** Once the token request is sent to the endpoint built from the challenge,
      a token request that gets no response fails with the transport error,
      and a 200 whose body does not deserialise fails with the
      deserialisation error; the client keeps its token either way */
  lemma LoginExchangeFails(c: Client, scopes: seq<string>, uriOk: string -> bool,
                           resp: Response, raw: Utf8.Bytes, ch: Challenge.AuthChallenge,
                           exchange: Reply,
                           decodeToken: Utf8.Bytes -> Option<TokenAuth>)
    requires BodyIsText(exchange) && uriOk(BaseEndpoint(c))
    requires resp.status == 401
    requires Lines(resp.headers, AuthenticateHeader) == [raw]
    requires Challenge.Parse(raw) == Success(ch)
    requires uriOk(Challenge.TokenEndpoint(ch, scopes))
    ensures var call := Login(c, scopes, uriOk, Received(resp), exchange, decodeToken);
      && call.sent == [NewRequest(c, Get, BaseEndpoint(c)),
                       TokenRequest(c, Challenge.TokenEndpoint(ch, scopes))]
      && (exchange.TransportFailed? ==> call.result == Failure(Transport))
      && ((exchange.Received? && exchange.response.status == 200
           && decodeToken(exchange.response.body).None?) ==> call.result == Failure(Json))
      && (call.result.Failure? ==> After(c, call).token == c.token)
  {
  }

  /** A 401 probe with one well-formed challenge and a 200 token response whose
      body deserialises: exactly two requests are sent, the second to the
      token endpoint built from the challenge, and the client's token becomes
      the token of the body, whatever token it held before */
  lemma LoginStoresToken(c: Client, scopes: seq<string>, uriOk: string -> bool,
                         resp: Response, raw: Utf8.Bytes, ch: Challenge.AuthChallenge,
                         tokenResp: Response, t: TokenAuth,
                         decodeToken: Utf8.Bytes -> Option<TokenAuth>)
    requires uriOk(BaseEndpoint(c))
    requires resp.status == 401
    requires Lines(resp.headers, AuthenticateHeader) == [raw]
    requires Challenge.Parse(raw) == Success(ch)
    requires uriOk(Challenge.TokenEndpoint(ch, scopes))
    requires tokenResp.status == 200 && Utf8.IsValid(tokenResp.body)
    requires decodeToken(tokenResp.body) == Some(t)
    ensures var call := Login(c, scopes, uriOk, Received(resp), Received(tokenResp), decodeToken);
      && call.sent == [NewRequest(c, Get, BaseEndpoint(c)),
                       TokenRequest(c, Challenge.TokenEndpoint(ch, scopes))]
      && call.result == Success(c.(token := Some(t.token)))
  {
  }

  /** A 401 probe with one well-formed challenge, then a token response other
      than 200: login fails after asking the challenge's token endpoint for a
      token, and the client keeps its token */
  lemma LoginTokenRefused(c: Client, scopes: seq<string>, uriOk: string -> bool,
                          resp: Response, raw: Utf8.Bytes, ch: Challenge.AuthChallenge,
                          exchange: Response,
                          decodeToken: Utf8.Bytes -> Option<TokenAuth>)
    requires uriOk(BaseEndpoint(c))
    requires resp.status == 401
    requires Lines(resp.headers, AuthenticateHeader) == [raw]
    requires Challenge.Parse(raw) == Success(ch)
    requires uriOk(Challenge.TokenEndpoint(ch, scopes))
    requires exchange.status != 200
    ensures var call := Login(c, scopes, uriOk, Received(resp), Received(exchange), decodeToken);
      && call.sent == [NewRequest(c, Get, BaseEndpoint(c)),
                       TokenRequest(c, Challenge.TokenEndpoint(ch, scopes))]
      && call.result == Failure(BadStatus)
      && After(c, call).token == c.token
  {
  }

  /** Login changes nothing but the token, and the token only by a successful
      exchange; every request signed afterwards presents the new token */
  lemma LoginThenSign(c: Client, scopes: seq<string>, uriOk: string -> bool,
                      probe: Reply, exchange: Reply,
                      decodeToken: Utf8.Bytes -> Option<TokenAuth>, url: string)
    requires BodyIsText(exchange)
    ensures var call := Login(c, scopes, uriOk, probe, exchange, decodeToken);
      var c' := After(c, call);
      && c'.(token := c.token) == c
      && (c'.token != c.token ==>
            |call.sent| == 2 && exchange.Received?
            && decodeToken(exchange.response.body).Some?
            && c'.token == Some(decodeToken(exchange.response.body).value.token))
      && PresentedToken(NewRequest(c', Get, url)) == c'.token
  {
  }

  /* ---------------------------------------------------------------------
     Catalog
     --------------------------------------------------------------------- */

  const CatalogPath: string := "/v2/_catalog"

  /** The catalog URL: `/v2/_catalog` on the base URL, with `?n=<limit>` iff a limit is given */
  function CatalogUrl(base: string, limit: Option<u32>): (url: string)
    ensures StartsWith(url, base + CatalogPath)
    ensures url == base + CatalogPath <==> limit.None?
    ensures limit.Some? ==> StartsWith(url[|base + CatalogPath|..], "?n=")
  {
    var prefix := base + CatalogPath;
    var url := prefix + (match limit case Some(n) => "?n=" + Decimal(n as nat) case None => "");
    assert url[..|prefix|] == prefix;
    url
  }

  /** The limit a catalog URL for `base` asks for: Some(None) when it asks for
      none, None when the URL is not a catalog URL for `base` */
  function CatalogLimit(base: string, url: string): Option<Option<u32>> {
    var prefix := base + CatalogPath;
    if !StartsWith(url, prefix) then None
    else
      var query := url[|prefix|..];
      if query == "" then Some(None)
      else if !StartsWith(query, "?n=") then None
      else match ParseDecimal(query[3..])
        case Some(n) => if n < 0x1_0000_0000 then Some(Some(n as u32)) else None
        case None => None
  }

  /** The limit can be read back from the catalog URL */
  lemma CatalogUrlRoundTrip(base: string, limit: Option<u32>)
    ensures CatalogLimit(base, CatalogUrl(base, limit)) == Some(limit)
  {
    var prefix := base + CatalogPath;
    var url := CatalogUrl(base, limit);
    assert url[..|prefix|] == prefix;
    match limit
    case None =>
      assert url[|prefix|..] == "";
    case Some(n) =>
      var query := url[|prefix|..];
      assert query == "?n=" + Decimal(n as nat);
      assert query[3..] == Decimal(n as nat);
      ParseDecimalOfDecimal(n as nat);
  }

  /** `get_catalog`: the catalog the registry answered with, on a 200 response
      whose body deserialises. Both a non-200 status and a body that does not
      deserialise are reported as `BadStatus`. */
  function GetCatalog(c: Client, limit: Option<u32>, uriOk: string -> bool, reply: Reply,
                      decodeCatalog: Utf8.Bytes -> Option<Catalog>): (call: Call<Catalog>)
    requires BodyIsText(reply)
    ensures call.sent == [] <==> !uriOk(CatalogUrl(c.baseUrl, limit))
    ensures call.sent != [] ==> call.sent == [NewRequest(c, Get, CatalogUrl(c.baseUrl, limit))]
    ensures call.result.Success? <==>
              uriOk(CatalogUrl(c.baseUrl, limit)) && reply.Received? && reply.response.status == 200
              && decodeCatalog(reply.response.body).Some?
    ensures call.result.Success? ==> call.result.value == decodeCatalog(reply.response.body).value
    ensures call.result.Failure? ==>
              call.result.error in {InvalidUri, Transport, BadStatus}
    ensures call.result.Failure? && call.sent != [] && reply.Received? ==> call.result.error == BadStatus
    ensures !uriOk(CatalogUrl(c.baseUrl, limit)) ==> call.result == Failure(InvalidUri)
    ensures uriOk(CatalogUrl(c.baseUrl, limit)) && reply.TransportFailed? ==> call.result == Failure(Transport)
  {
    var url := CatalogUrl(c.baseUrl, limit);
    if !uriOk(url) then Call([], Failure(InvalidUri))
    else
      var result := match reply
        case TransportFailed => Failure(Transport)
        case Received(resp) =>
          if resp.status != 200 then Failure(BadStatus)
          else match decodeCatalog(resp.body)
            case None => Failure(BadStatus)
            case Some(cat) => Success(cat);
      Call([NewRequest(c, Get, url)], result)
  }
}
