/** The relay's access-token cache: a token and its expiry time, reused while
    the token is more than a safety margin away from expiring and otherwise
    replaced by one OAuth 2.0 client-credentials exchange (section 4.4 of
    RFC 6749) authenticated with HTTP Basic credentials (section 2 of RFC 7617).
    Clock readings and the identity provider's reply are inputs. */
module TokenCache {
  import opened Wrappers
  import opened Bytes
  import Decimal
  import Strings
  import Utf8
  import Base64

  /** A token is reused only while the clock is more than this many
      milliseconds before its expiry. */
  const SafetyMarginMs := 30000
  /** The lifetime, in seconds, assumed when a reply gives none. */
  const DefaultLifetimeSeconds := 3600
  const TokenEndpoint := "https://oauth.fatsecret.com/connect/token"
  const FormContentType := "application/x-www-form-urlencoded"
  /** The form body `grant_type=client_credentials&scope=basic`. */
  const GrantForm := "grant_type=client_credentials&scope=basic"
  const TokenErrorPrefix := "Token error: "

  /** How a template literal prints `undefined`. */
  const Undefined := "undefined"

  /** A possibly undefined JavaScript string as a template literal prints it. */
  function Interpolate(v: Option<string>): string {
    match v
    case Some(s) => s
    case None => Undefined
  }

  /** JavaScript truthiness of a string that may be null or undefined. */
  predicate Truthy(v: Option<string>) {
    v.Some? && v.value != ""
  }

  /** The client-credentials request: a form POST to the token endpoint. */
  datatype TokenRequest = TokenRequest(
    verb: string, url: string, authorization: string, contentType: string, body: string)

  /** The JSON body of a successful reply as the cache reads it: the
      `access_token` and `expires_in` members (absent ones as None), or the
      message of the error thrown when the body is not JSON. */
  datatype TokenJson = Parsed(accessToken: Option<string>, expiresIn: Option<int>) | Malformed(message: string)

  /** What the identity provider's endpoint gives back: the message of a
      network failure, or a status with the body read as text and as JSON
      (the code reads only the one its status calls for). */
  datatype TokenReply = NetworkError(message: string) | Reply(status: nat, text: string, json: TokenJson)

  /** node-fetch's `ok`: a 2xx status. */
  predicate IsOk(status: nat) { 200 <= status < 300 }

  /** The credentials `client-id ":" client-secret`, unset ones printed as "undefined". */
  function UserPass(clientId: Option<string>, clientSecret: Option<string>): string {
    Interpolate(clientId) + ":" + Interpolate(clientSecret)
  }

  /** A user-id without ':' (as section 2 of RFC 7617 requires) is recovered
      from the credentials by splitting at the first ':'. */
  lemma UserPassSplits(clientId: Option<string>, clientSecret: Option<string>)
    requires ':' !in Interpolate(clientId)
    ensures var u := UserPass(clientId, clientSecret); var i := Strings.IndexOf(u, ':');
      i == |Interpolate(clientId)| && u[..i] == Interpolate(clientId) && u[i + 1..] == Interpolate(clientSecret)
  {
    var id, secret := Interpolate(clientId), Interpolate(clientSecret);
    Strings.IndexOfAfter(id, ':', secret);
    var u := UserPass(clientId, clientSecret);
    assert u == id + [':'] + secret;
    assert u[..|id|] == id && u[|id| + 1..] == secret;
  }

  /** The Authorization header: "Basic " and the base 64 of the UTF-8 credentials. */
  function BasicAuthorization(clientId: Option<string>, clientSecret: Option<string>): string {
    "Basic " + Base64.Encode(Utf8.Encode(UserPass(clientId, clientSecret)))
  }

  function ExchangeRequest(clientId: Option<string>, clientSecret: Option<string>): TokenRequest {
    TokenRequest("POST", TokenEndpoint, BasicAuthorization(clientId, clientSecret), FormContentType, GrantForm)
  }

  /** A receiver of the header recovers the exact credentials from it. */
  lemma BasicAuthorizationCarriesCredentials(clientId: Option<string>, clientSecret: Option<string>)
    ensures var h := BasicAuthorization(clientId, clientSecret);
      |h| >= 6 && h[..6] == "Basic " &&
      match Base64.Decode(h[6..])
      case Some(b) => Utf8.Decode(b) == Some(UserPass(clientId, clientSecret))
      case None => false
  {
    var userPass := UserPass(clientId, clientSecret);
    var h := BasicAuthorization(clientId, clientSecret);
    assert h[6..] == Base64.Encode(Utf8.Encode(userPass));
    Base64.DecodeEncode(Utf8.Encode(userPass));
    Utf8.DecodeEncode(userPass);
  }

  /** The message thrown on a non-2xx reply: prefix, status, a space, the body. */
  function TokenErrorMessage(status: nat, text: string): string {
    TokenErrorPrefix + Decimal.NatToString(status) + " " + text
  }

  /** The status and body text a token-error message carries, if it is one. */
  function ReadTokenError(m: string): Option<(nat, string)> {
    var p := |TokenErrorPrefix|;
    if |m| < p || m[..p] != TokenErrorPrefix then None
    else
      var rest := m[p..];
      var i := Strings.IndexOf(rest, ' ');
      if i == |rest| || i == 0 || exists k :: 0 <= k < i && !Decimal.IsDigit(rest[k]) then None
      else Some((Decimal.ParseNat(rest[..i]), rest[i + 1..]))
  }

  /** The status and the body text can be read back from the message. */
  lemma ReadTokenErrorMessage(status: nat, text: string)
    ensures ReadTokenError(TokenErrorMessage(status, text)) == Some((status, text))
  {
    var d := Decimal.NatToString(status);
    var m := TokenErrorMessage(status, text);
    var rest := d + " " + text;
    assert m[..|TokenErrorPrefix|] == TokenErrorPrefix;
    assert m[|TokenErrorPrefix|..] == rest;
    assert rest[..|d|] == d && rest[|d| + 1..] == text;
    assert forall k :: 0 <= k < |d| ==> rest[k] == d[k] && Decimal.IsDigit(rest[k]);
    Strings.IndexOfAfter(d, ' ', text);
    Decimal.ParseNatToString(status);
  }

  /** Distinct statuses or bodies give distinct token-error messages. */
  lemma TokenErrorMessageInjective(status1: nat, text1: string, status2: nat, text2: string)
    requires TokenErrorMessage(status1, text1) == TokenErrorMessage(status2, text2)
    ensures status1 == status2 && text1 == text2
  {
    ReadTokenErrorMessage(status1, text1);
    ReadTokenErrorMessage(status2, text2);
  }

  /** The lifetime in seconds the cache applies: `expires_in || 3600`, where
      an absent or zero value is falsy. */
  function LifetimeSeconds(expiresIn: Option<int>): int {
    match expiresIn
    case Some(n) => if n != 0 then n else DefaultLifetimeSeconds
    case None => DefaultLifetimeSeconds
  }

  /** A missing or zero lifetime is the default; any other is taken as given. */
  lemma LifetimeDefault(expiresIn: Option<int>)
    ensures LifetimeSeconds(expiresIn) != 0
    ensures expiresIn.None? || expiresIn == Some(0) ==> LifetimeSeconds(expiresIn) * 1000 == 3_600_000
    ensures expiresIn.Some? && expiresIn.value != 0 ==> LifetimeSeconds(expiresIn) == expiresIn.value
  {
  }

  /** The cache contents: the token (null before the first exchange) and the
      time, in epoch milliseconds, at which it expires. */
  datatype CacheState = CacheState(token: Option<string>, expiresAt: int)

  const EmptyCache := CacheState(None, 0)

  /** Whether the cached token may be reused at clock reading `now`. */
  predicate IsFresh(s: CacheState, now: int) {
    Truthy(s.token) && now < s.expiresAt - SafetyMarginMs
  }

  /** One call: the new cache, the token returned or the message thrown, and
      the exchange request sent, if any. */
  datatype Fetched = Fetched(state: CacheState, result: Result<Option<string>, string>, request: Option<TokenRequest>)

  /** The cache and the outcome after the provider's `reply` to an exchange
      arrives, `now2` being the clock reading taken after it: a failure
      leaves the cache as it was, a success overwrites both fields and
      returns the token the cache now holds. */
  datatype Exchanged = Exchanged(state: CacheState, result: Result<Option<string>, string>)

  function Exchange(s: CacheState, reply: TokenReply, now2: int): (r: Exchanged)
    ensures r.result.Failure? ==> r.state == s
    ensures r.result.Success? ==> r.result.value == r.state.token
    ensures r.result.Success? <==> reply.Reply? && IsOk(reply.status) && reply.json.Parsed?
  {
    match reply
    case NetworkError(m) => Exchanged(s, Failure(m))
    case Reply(status, text, json) =>
      if !IsOk(status) then Exchanged(s, Failure(TokenErrorMessage(status, text)))
      else match json
        case Malformed(m) => Exchanged(s, Failure(m))
        case Parsed(accessToken, expiresIn) =>
          Exchanged(CacheState(accessToken, now2 + LifetimeSeconds(expiresIn) * 1000), Success(accessToken))
  }

  /** The specification of one call at clock reading `now`, with `reply` the
      identity provider's answer if an exchange is made and `now2` the clock
      reading taken after it. An exchange is made exactly when the cached
      token cannot be reused; a failure leaves the cache as it was; a success
      returns the token the cache now holds. */
  function Fetch(s: CacheState, clientId: Option<string>, clientSecret: Option<string>,
                 now: int, reply: TokenReply, now2: int): (r: Fetched)
    ensures r.request.None? <==> IsFresh(s, now)
    ensures r.request.Some? ==> r.request.value == ExchangeRequest(clientId, clientSecret)
    ensures r.result.Failure? ==> r.state == s
    ensures r.result.Success? ==> r.result.value == r.state.token
    ensures r.request.None? ==> r.state == s && r.result.Success?
  {
    if IsFresh(s, now) then Fetched(s, Success(s.token), None)
    else
      var e := Exchange(s, reply, now2);
      Fetched(e.state, e.result, Some(ExchangeRequest(clientId, clientSecret)))
  }

  /** Cache hit: a truthy token more than the margin away from expiry is
      returned with no exchange, whatever the provider would have said, and
      the cache is unchanged. */
  lemma FetchReusesFreshToken(s: CacheState, clientId: Option<string>, clientSecret: Option<string>,
                              now: int, reply: TokenReply, now2: int)
    requires Truthy(s.token) && now < s.expiresAt - SafetyMarginMs
    ensures Fetch(s, clientId, clientSecret, now, reply, now2) == Fetched(s, Success(s.token), None)
  {
  }

  /** Refresh: with no token, an empty one, or a clock within the margin of
      expiry, exactly one exchange request is sent. */
  lemma FetchExchangesWhenStale(s: CacheState, clientId: Option<string>, clientSecret: Option<string>,
                                now: int, reply: TokenReply, now2: int)
    requires s.token.None? || s.token == Some("") || now >= s.expiresAt - SafetyMarginMs
    ensures Fetch(s, clientId, clientSecret, now, reply, now2).request == Some(ExchangeRequest(clientId, clientSecret))
  {
  }

  /** Failed exchange: a non-2xx reply fails with "Token error: <status> <body>"
      and leaves both fields as they were. */
  lemma FetchRejected(s: CacheState, clientId: Option<string>, clientSecret: Option<string>,
                      now: int, status: nat, text: string, json: TokenJson, now2: int)
    requires !IsFresh(s, now) && !IsOk(status)
    ensures var r := Fetch(s, clientId, clientSecret, now, Reply(status, text, json), now2);
      r.state == s && r.result == Failure("Token error: " + Decimal.NatToString(status) + " " + text)
  {
  }

  /** Successful exchange: both fields are overwritten from the reply, the
      expiry measured from the second clock reading, and the new token is
      returned. Without `expires_in` the expiry is exactly an hour later. */
  lemma FetchGranted(s: CacheState, clientId: Option<string>, clientSecret: Option<string>,
                     now: int, status: nat, text: string, accessToken: Option<string>,
                     expiresIn: Option<int>, now2: int)
    requires !IsFresh(s, now) && IsOk(status)
    ensures var r := Fetch(s, clientId, clientSecret, now, Reply(status, text, Parsed(accessToken, expiresIn)), now2);
      r.state.token == accessToken && r.result == Success(accessToken) &&
      r.state.expiresAt == now2 + LifetimeSeconds(expiresIn) * 1000 &&
      (expiresIn.None? ==> r.state.expiresAt == now2 + 3_600_000)
  {
  }

  /** Hit after refresh: after a successful exchange, a call at a clock
      reading `later` reuses the token exactly when the token is non-empty
      and `later` is more than the margin before the new expiry; at the same
      clock reading, exactly when the lifetime exceeds 30 seconds. */
  lemma HitAfterRefresh(s: CacheState, clientId: Option<string>, clientSecret: Option<string>,
                                           now: int, reply: TokenReply, now2: int,
                                           later: int, reply2: TokenReply, later2: int)
    requires reply.Reply? && IsOk(reply.status) && reply.json.Parsed?
    requires !IsFresh(s, now)
    ensures var r := Fetch(s, clientId, clientSecret, now, reply, now2);
      var r2 := Fetch(r.state, clientId, clientSecret, later, reply2, later2);
      var n := LifetimeSeconds(reply.json.expiresIn);
      (r2.request.None? <==> Truthy(reply.json.accessToken) && later < now2 + n * 1000 - SafetyMarginMs) &&
      (later == now2 ==> (r2.request.None? <==> Truthy(reply.json.accessToken) && n > 30)) &&
      (r2.request.None? ==> r2.result == r.result && r2.state == r.state)
  {
    var r := Fetch(s, clientId, clientSecret, now, reply, now2);
    var n := LifetimeSeconds(reply.json.expiresIn);
    FetchGranted(s, clientId, clientSecret, now, reply.status, reply.text,
                 reply.json.accessToken, reply.json.expiresIn, now2);
    assert reply == Reply(reply.status, reply.text, Parsed(reply.json.accessToken, reply.json.expiresIn));
    FreshAfterGrant(reply.json.accessToken, now2, n, later);
    var r2 := Fetch(r.state, clientId, clientSecret, later, reply2, later2);
    assert r2.request.None? <==> IsFresh(r.state, later);
  }

  /** A token granted at `now2` for `n` seconds can be reused at `later`
      exactly when it is non-empty and `later` is before the margin. */
  lemma FreshAfterGrant(token: Option<string>, now2: int, n: int, later: int)
    ensures var s := CacheState(token, now2 + n * 1000);
      (IsFresh(s, later) <==> Truthy(token) && later < now2 + n * 1000 - SafetyMarginMs) &&
      (later == now2 ==> (IsFresh(s, later) <==> Truthy(token) && n > 30))
  {
  }

  /** The process-wide cache, created empty and overwritten in full by each
      successful exchange. */
  class TokenCache {
    var token: Option<string>
    var expiresAt: int

    constructor ()
      ensures token == None && expiresAt == 0
    {
      token := None;
      expiresAt := 0;
    }

    function State(): CacheState
      reads this
    {
      CacheState(token, expiresAt)
    }

    /** Returns a usable token, exchanging the credentials for a new one
        when the cached token is missing, empty or near expiry. */
    method FetchAccessToken(clientId: Option<string>, clientSecret: Option<string>,
                            now: int, reply: TokenReply, now2: int)
      returns (result: Result<Option<string>, string>, request: Option<TokenRequest>)
      modifies this
      ensures Fetched(State(), result, request) == Fetch(old(State()), clientId, clientSecret, now, reply, now2)
    {
      if Truthy(token) && now < expiresAt - SafetyMarginMs {
        return Success(token), None;
      }
      request := Some(ExchangeRequest(clientId, clientSecret));
      result := ReceiveToken(reply, now2);
    }

    /** Handles the provider's reply to an exchange: a network error, a
        non-2xx status or an unreadable body is thrown with the cache left
        alone; otherwise both fields are overwritten. */
    method ReceiveToken(reply: TokenReply, now2: int) returns (result: Result<Option<string>, string>)
      modifies this
      ensures Exchanged(State(), result) == Exchange(old(State()), reply, now2)
    {
      match reply {
        case NetworkError(m) =>
          result := Failure(m);
        case Reply(status, text, json) =>
          if !IsOk(status) {
            result := Failure(TokenErrorMessage(status, text));
            return;
          }
          match json {
            case Malformed(m) =>
              result := Failure(m);
            case Parsed(accessToken, expiresIn) =>
              token := accessToken;
              expiresAt := now2 + LifetimeSeconds(expiresIn) * 1000;
              result := Success(token);
          }
      }
    }
  }
}
