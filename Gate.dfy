/**
 * The admission ladder both sync handlers run before touching any data: the request method,
 * the OAuth client configuration, the two stored credentials read from cookies, and one
 * refresh-token exchange per account, each able to end the request early.
 */
module Gate {
  import opened Base
  import opened Cookies

  /** The parts of the incoming request the handlers read; a missing `Cookie` header is "". */
  datatype Request = Request(httpMethod: string, cookieHeader: string)

  /** `GOOGLE_CLIENT_ID` and `GOOGLE_CLIENT_SECRET`; "" when unset. */
  datatype Env = Env(clientId: string, clientSecret: string)

  /**
   * What `JSON.parse` makes of a base64url-decoded credential cookie: it throws (`Unparsable`),
   * yields JSON `null` (`Null`), or yields a value whose `refresh_token` is read ("" when falsy).
   */
  datatype Credential = Unparsable | Null | Parsed(refreshToken: string)

  /** `JSON.parse(Buffer.from(raw, 'base64url').toString('utf8'))`. */
  type CredentialDecoder = string -> Credential

  /**
   * The token endpoint's answer to one refresh-token exchange. `Denied` covers a non-ok status,
   * a rejected `fetch` and an unreadable body: all three throw inside the same `try`.
   */
  datatype TokenReply = Granted(accessToken: string) | Denied

  /** How the ladder ends: an early error response, an escaped exception, or two access tokens. */
  datatype Admission =
    | Refused(status: int, error: string)
    | Crashed
    | Admitted(sourceAccess: string, destinationAccess: string)

  /** What a handler sends back: an error object, the run's counts, or nothing (an uncaught exception). */
  datatype Response =
    | ErrorResponse(status: int, error: string)
    | SyncReport(created: nat, skipped: nat, sourceCount: nat, destinationCount: nat)
    | Unhandled

  /** The HTTP status of a response; an uncaught exception is reported by the platform as 500. */
  function StatusOf(r: Response): int
  {
    match r
    case ErrorResponse(status, _) => status
    case SyncReport(_, _, _, _) => 200
    case Unhandled => 500
  }

  const MethodNotAllowed := "Method not allowed"
  const MissingEnv := "Missing Google OAuth env vars"
  const NotConnected := "Both source and destination must be connected"
  const InvalidCredentials := "Invalid stored credentials"
  const MissingRefreshTokens := "Missing refresh tokens"
  const RefreshFailed := "Failed to refresh access tokens"

  const SourceCookie := "g_src"
  const DestinationCookie := "g_dest"

  predicate HasClient(env: Env)
  {
    env.clientId != [] && env.clientSecret != []
  }

  /** `cookies[name] || ''`. */
  function CookieValue(jar: map<string, string>, name: string): string
  {
    if name in jar then jar[name] else []
  }

  /** The method and the client configuration pass, and the cookie jar parses. */
  predicate JarRead(req: Request, env: Env, decodeUri: UriDecoder)
  {
    req.httpMethod == "POST" && HasClient(env) && Jar(req.cookieHeader, decodeUri).Some?
  }

  /** The method and the client configuration pass, but decoding a cookie value throws. */
  predicate JarThrows(req: Request, env: Env, decodeUri: UriDecoder)
  {
    req.httpMethod == "POST" && HasClient(env) && Jar(req.cookieHeader, decodeUri).None?
  }

  /** The raw value of cookie `name` in the parsed jar ("" when the jar does not parse). */
  function RawCookie(req: Request, decodeUri: UriDecoder, name: string): string
  {
    var jar := Jar(req.cookieHeader, decodeUri);
    if jar.None? then [] else CookieValue(jar.value, name)
  }

  /** First rung after the jar: one of the two credential cookies is missing or empty. */
  predicate Disconnected(req: Request, env: Env, decodeUri: UriDecoder)
  {
    JarRead(req, env, decodeUri)
    && (RawCookie(req, decodeUri, SourceCookie) == [] || RawCookie(req, decodeUri, DestinationCookie) == [])
  }

  /** Both credential cookies are present and non-empty. */
  predicate Connected(req: Request, env: Env, decodeUri: UriDecoder)
  {
    JarRead(req, env, decodeUri)
    && RawCookie(req, decodeUri, SourceCookie) != [] && RawCookie(req, decodeUri, DestinationCookie) != []
  }

  function SourceCredential(req: Request, decodeUri: UriDecoder, decodeCredential: CredentialDecoder): Credential
  {
    decodeCredential(RawCookie(req, decodeUri, SourceCookie))
  }

  function DestinationCredential(req: Request, decodeUri: UriDecoder, decodeCredential: CredentialDecoder): Credential
  {
    decodeCredential(RawCookie(req, decodeUri, DestinationCookie))
  }

  /** Second rung: both cookies are there, but one of them does not parse. */
  predicate BadCredentials(req: Request, env: Env, decodeUri: UriDecoder, decodeCredential: CredentialDecoder)
  {
    Connected(req, env, decodeUri)
    && (SourceCredential(req, decodeUri, decodeCredential).Unparsable?
        || DestinationCredential(req, decodeUri, decodeCredential).Unparsable?)
  }

  /** Both credentials parse. */
  predicate Readable(req: Request, env: Env, decodeUri: UriDecoder, decodeCredential: CredentialDecoder)
  {
    Connected(req, env, decodeUri)
    && !SourceCredential(req, decodeUri, decodeCredential).Unparsable?
    && !DestinationCredential(req, decodeUri, decodeCredential).Unparsable?
  }

  /**
   * Reading `refresh_token` of a JSON `null` throws: the source credential is `null`, or the
   * source has a refresh token and the destination credential is `null`.
   */
  predicate NullCredential(req: Request, env: Env, decodeUri: UriDecoder, decodeCredential: CredentialDecoder)
  {
    var src := SourceCredential(req, decodeUri, decodeCredential);
    var dest := DestinationCredential(req, decodeUri, decodeCredential);
    Readable(req, env, decodeUri, decodeCredential)
    && (src.Null? || (src.Parsed? && src.refreshToken != [] && dest.Null?))
  }

  /**
   * Third rung: the source's refresh token is empty, or the source has one and the
   * destination's is empty.
   */
  predicate NoRefreshToken(req: Request, env: Env, decodeUri: UriDecoder, decodeCredential: CredentialDecoder)
  {
    var src := SourceCredential(req, decodeUri, decodeCredential);
    var dest := DestinationCredential(req, decodeUri, decodeCredential);
    Readable(req, env, decodeUri, decodeCredential)
    && (src == Parsed([]) || (src.Parsed? && src.refreshToken != [] && dest == Parsed([])))
  }

  /**
   * The two refresh tokens, when every check before the token exchange passes: both cookies are
   * present and non-empty, both parse to non-null values, and both refresh tokens are non-empty.
   */
  function RefreshTokens(req: Request, env: Env, decodeUri: UriDecoder, decodeCredential: CredentialDecoder)
    : (r: Option<(string, string)>)
    ensures r.Some? ==> JarRead(req, env, decodeUri) && r.value.0 != [] && r.value.1 != []
    ensures r.Some? ==> SourceCredential(req, decodeUri, decodeCredential) == Parsed(r.value.0)
    ensures r.Some? ==> DestinationCredential(req, decodeUri, decodeCredential) == Parsed(r.value.1)
  {
    var jar := Jar(req.cookieHeader, decodeUri);
    if req.httpMethod != "POST" || !HasClient(env) || jar.None? then None
    else
      var src := decodeCredential(CookieValue(jar.value, SourceCookie));
      var dest := decodeCredential(CookieValue(jar.value, DestinationCookie));
      if CookieValue(jar.value, SourceCookie) == [] || CookieValue(jar.value, DestinationCookie) == [] then None
      else if !src.Parsed? || !dest.Parsed? || src.refreshToken == [] || dest.refreshToken == [] then None
      else Some((src.refreshToken, dest.refreshToken))
  }

  /**
   * Once the jar is read, the ladder stops at exactly one rung, or reaches the token exchange
   * with two refresh tokens.
   */
  lemma LadderPartition(req: Request, env: Env, decodeUri: UriDecoder, decodeCredential: CredentialDecoder)
    requires JarRead(req, env, decodeUri)
    ensures RefreshTokens(req, env, decodeUri, decodeCredential).Some? <==>
      !Disconnected(req, env, decodeUri) && !BadCredentials(req, env, decodeUri, decodeCredential)
      && !NullCredential(req, env, decodeUri, decodeCredential) && !NoRefreshToken(req, env, decodeUri, decodeCredential)
    ensures Disconnected(req, env, decodeUri) ==> !BadCredentials(req, env, decodeUri, decodeCredential)
    ensures BadCredentials(req, env, decodeUri, decodeCredential) ==>
      !NullCredential(req, env, decodeUri, decodeCredential) && !NoRefreshToken(req, env, decodeUri, decodeCredential)
    ensures !(NullCredential(req, env, decodeUri, decodeCredential) && NoRefreshToken(req, env, decodeUri, decodeCredential))
  {
  }

  /** Every check passes and both token exchanges are granted: the handler goes on to list data. */
  predicate Authorized(req: Request, env: Env, decodeUri: UriDecoder, decodeCredential: CredentialDecoder,
                       sourceReply: TokenReply, destinationReply: TokenReply)
  {
    RefreshTokens(req, env, decodeUri, decodeCredential).Some? && sourceReply.Granted? && destinationReply.Granted?
  }

  /** The response a handler sends when the ladder stops it. */
  function Early(a: Admission): Response
  {
    match a
    case Refused(status, error) => ErrorResponse(status, error)
    case Crashed => Unhandled
    case Admitted(_, _) => Unhandled
  }

  /**
   * The admission ladder at the head of either handler. `exchanges` lists the refresh tokens
   * sent to the token endpoint, in order.
   */
  method Admit(req: Request, env: Env, decodeUri: UriDecoder, decodeCredential: CredentialDecoder,
               sourceReply: TokenReply, destinationReply: TokenReply)
    returns (a: Admission, exchanges: seq<string>)
    ensures (a.Refused? && a.status == 405) <==> req.httpMethod != "POST"
    ensures a.Refused? && a.status == 405 ==> a.error == MethodNotAllowed
    ensures (a.Refused? && a.status == 500) <==> req.httpMethod == "POST" && !HasClient(env)
    ensures a.Refused? && a.status == 500 ==> a.error == MissingEnv
    ensures a.Refused? ==> a.status in {405, 500, 400, 502}
    ensures a.Refused? && a.status == 400 ==> a.error in {NotConnected, InvalidCredentials, MissingRefreshTokens}
    // each rung after the jar, in order
    ensures a == Refused(400, NotConnected) <==> Disconnected(req, env, decodeUri)
    ensures a == Refused(400, InvalidCredentials) <==> BadCredentials(req, env, decodeUri, decodeCredential)
    ensures a == Refused(400, MissingRefreshTokens) <==> NoRefreshToken(req, env, decodeUri, decodeCredential)
    ensures a.Crashed? <==>
      JarThrows(req, env, decodeUri) || NullCredential(req, env, decodeUri, decodeCredential)
    // no token request unless every earlier check passed
    ensures exchanges != [] <==> RefreshTokens(req, env, decodeUri, decodeCredential).Some?
    ensures RefreshTokens(req, env, decodeUri, decodeCredential).None? ==> !a.Admitted? && !(a.Refused? && a.status == 502)
    ensures RefreshTokens(req, env, decodeUri, decodeCredential).Some? ==>
      var (s, d) := RefreshTokens(req, env, decodeUri, decodeCredential).value;
      && exchanges == (if sourceReply.Granted? then [s, d] else [s])
      && (a.Admitted? <==> sourceReply.Granted? && destinationReply.Granted?)
      && (!a.Admitted? ==> a == Refused(502, RefreshFailed))
    ensures a.Admitted? <==> Authorized(req, env, decodeUri, decodeCredential, sourceReply, destinationReply)
    ensures a.Admitted? ==> a == Admitted(sourceReply.accessToken, destinationReply.accessToken)
  {
    exchanges := [];
    if req.httpMethod != "POST" {
      return Refused(405, MethodNotAllowed), exchanges;
    }
    if !HasClient(env) {
      return Refused(500, MissingEnv), exchanges;
    }
    var jar := ParseCookies(req.cookieHeader, decodeUri);
    if jar.None? {
      return Crashed, exchanges;
    }
    var srcRaw := CookieValue(jar.value, SourceCookie);
    var destRaw := CookieValue(jar.value, DestinationCookie);
    if srcRaw == [] || destRaw == [] {
      return Refused(400, NotConnected), exchanges;
    }
    var src := decodeCredential(srcRaw);
    if src.Unparsable? {
      return Refused(400, InvalidCredentials), exchanges;
    }
    var dest := decodeCredential(destRaw);
    if dest.Unparsable? {
      return Refused(400, InvalidCredentials), exchanges;
    }
    // `!srcData.refresh_token` on a JSON null throws a TypeError outside any `try`.
    if src.Null? {
      return Crashed, exchanges;
    }
    if src.refreshToken == [] {
      return Refused(400, MissingRefreshTokens), exchanges;
    }
    if dest.Null? {
      return Crashed, exchanges;
    }
    if dest.refreshToken == [] {
      return Refused(400, MissingRefreshTokens), exchanges;
    }
    exchanges := [src.refreshToken];
    if sourceReply.Denied? {
      return Refused(502, RefreshFailed), exchanges;
    }
    exchanges := exchanges + [dest.refreshToken];
    if destinationReply.Denied? {
      return Refused(502, RefreshFailed), exchanges;
    }
    a := Admitted(sourceReply.accessToken, destinationReply.accessToken);
  }
}
