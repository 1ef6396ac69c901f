/** The `/search` handler: it defaults the query, obtains a token from the
    cache, sends one GET to the food-search endpoint with a bearer token
    (section 2.1 of RFC 6750), and relays the upstream status and body as
    they are; any error thrown on the way becomes a 500 whose JSON body
    carries the error's message. */
module SearchRelay {
  import opened Wrappers
  import Strings
  import UriComponent
  import JsonString
  import TokenCache
  import Decimal

  const SearchOrigin := "https://platform.fatsecret.com"
  const SearchEndpoint := SearchOrigin + "/rest/server.api"

  /** `req.query.q || ""`: an absent query, like an empty one, is the empty text. */
  function QueryText(q: Option<string>): (text: string)
    ensures text == "" <==> (q.None? || q.value == "")
    ensures q.Some? ==> text == q.value
  {
    match q
    case Some(t) => if t != "" then t else ""
    case None => ""
  }

  /** The query of the upstream URL around an encoded search text `e`. */
  function SearchQuery(e: string): string {
    "method=foods.search.v2" + "&search_expression=" + e + "&format=json" + "&max_results=5" + "&page_number=0"
  }

  /** The upstream URL: a fixed template around the encoded query text. */
  function SearchUrl(q: string): string {
    SearchEndpoint + "?" + SearchQuery(UriComponent.EncodeURIComponent(q))
  }

  /** The Authorization header of the upstream request. */
  function BearerAuthorization(token: Option<string>): (h: string)
    ensures |h| >= 7 && h[..7] == "Bearer "
    ensures token.Some? ==> h[7..] == token.value
  {
    "Bearer " + TokenCache.Interpolate(token)
  }

  datatype SearchRequest = SearchRequest(url: string, authorization: string)

  /** What the upstream call gives back: the message of an error thrown while
      sending it or reading its body, or its status and body text. */
  datatype UpstreamReply = TransportError(message: string) | Upstream(status: nat, text: string)

  datatype Response = Response(status: nat, body: string)

  /** The catch branch: status 500 and the body `{"error":<message>}`. */
  function ErrorResponse(message: string): (r: Response)
    ensures r.status == 500 && JsonString.ErrorMessage(r.body) == Some(message)
  {
    JsonString.ErrorMessageOfObject(message);
    Response(500, JsonString.ErrorObject(message))
  }

  /** The reply to the caller once the token step and the upstream call have
      an outcome: a 500 carrying the first error's message, or the upstream
      status and body unchanged. */
  function Relay(token: Result<Option<string>, string>, upstream: UpstreamReply): (r: Response)
    ensures token.Failure? ==> JsonString.ErrorMessage(r.body) == Some(token.error) && r.status == 500
  {
    match token
    case Failure(m) => ErrorResponse(m)
    case Success(_) =>
      match upstream
      case TransportError(m) => ErrorResponse(m)
      case Upstream(status, text) => Response(status, text)
  }

  /** One request: the cache afterwards, the response, and the token exchange
      and upstream search sent. */
  datatype Handled = Handled(
    state: TokenCache.CacheState, response: Response,
    tokenRequest: Option<TokenCache.TokenRequest>, searchRequest: Option<SearchRequest>)

  /** The specification of one `/search` request against cache `s`. */
  function Search(s: TokenCache.CacheState, q: Option<string>,
                  clientId: Option<string>, clientSecret: Option<string>,
                  now: int, tokenReply: TokenCache.TokenReply, now2: int,
                  upstream: UpstreamReply): (h: Handled)
    ensures h.searchRequest.Some? <==>
      TokenCache.Fetch(s, clientId, clientSecret, now, tokenReply, now2).result.Success?
    ensures h.searchRequest.None? ==> h.response.status == 500
  {
    var fetched := TokenCache.Fetch(s, clientId, clientSecret, now, tokenReply, now2);
    var request :=
      match fetched.result
      case Success(token) => Some(SearchRequest(SearchUrl(QueryText(q)), BearerAuthorization(token)))
      case Failure(_) => None;
    Handled(fetched.state, Relay(fetched.result, upstream), fetched.request, request)
  }

  /** The handler, over the process-wide token cache. */
  method HandleSearch(cache: TokenCache.TokenCache, q: Option<string>,
                      clientId: Option<string>, clientSecret: Option<string>,
                      now: int, tokenReply: TokenCache.TokenReply, now2: int,
                      upstream: UpstreamReply)
    returns (response: Response, tokenRequest: Option<TokenCache.TokenRequest>,
             searchRequest: Option<SearchRequest>)
    modifies cache
    ensures Handled(cache.State(), response, tokenRequest, searchRequest) ==
      Search(old(cache.State()), q, clientId, clientSecret, now, tokenReply, now2, upstream)
  {
    var text := QueryText(q);
    var token;
    token, tokenRequest := cache.FetchAccessToken(clientId, clientSecret, now, tokenReply, now2);
    if token.Failure? {
      return ErrorResponse(token.error), tokenRequest, None;
    }
    var url := SearchUrl(text);
    searchRequest := Some(SearchRequest(url, BearerAuthorization(token.value)));
    match upstream {
      case TransportError(m) =>
        response := ErrorResponse(m);
      case Upstream(status, body) =>
        response := Response(status, body);
    }
  }

  /** A query field split at its first '=' into name and value. */
  function Parameter(field: string): (string, string) {
    var i := Strings.IndexOf(field, '=');
    if i < |field| then (field[..i], field[i + 1..]) else (field, "")
  }

  function Parameters(fields: seq<string>): seq<(string, string)> {
    if fields == [] then [] else [Parameter(fields[0])] + Parameters(fields[1..])
  }

  /** The name/value pairs of a URL's query, read as a server reads them:
      the text after the first '?', split at every '&'. */
  function QueryParameters(url: string): seq<(string, string)> {
    var i := Strings.IndexOf(url, '?');
    if i == |url| then [] else Parameters(Strings.Split(url[i + 1..], '&'))
  }

  /** One pair written as a query field "name=value". */
  function Field(pair: (string, string)): string {
    pair.0 + ['='] + pair.1
  }

  /** Name/value pairs written as a query: their fields joined by '&'. */
  function JoinQuery(pairs: seq<(string, string)>): string
    requires |pairs| >= 1
  {
    if |pairs| == 1 then Field(pairs[0]) else Field(pairs[0]) + ['&'] + JoinQuery(pairs[1..])
  }

  lemma EndpointHasNoQuery()
    ensures '?' !in SearchEndpoint
  {
    NoQueryMark(SearchOrigin);
    NoQueryMark("/rest/server.api");
  }

  lemma NoQueryMark(s: string)
    requires forall i :: 0 <= i < |s| ==> s[i] != '?'
    ensures '?' !in s
  {
  }

  lemma ParameterOf(name: string, value: string)
    requires '=' !in name
    ensures Parameter(name + ['='] + value) == (name, value)
  {
    var field := name + ['='] + value;
    Strings.IndexOfAfter(name, '=', value);
    assert field[..|name|] == name && field[|name| + 1..] == value;
  }

  /** The upstream URL is the endpoint, the first '?', and the query. */
  lemma SearchUrlSplitsAtQuery(q: string)
    ensures var url := SearchUrl(q); var i := Strings.IndexOf(url, '?');
      url[..i] == SearchEndpoint && i < |url| && url[i + 1..] == SearchQuery(UriComponent.EncodeURIComponent(q))
  {
    var url := SearchUrl(q);
    var query := SearchQuery(UriComponent.EncodeURIComponent(q));
    EndpointHasNoQuery();
    Strings.IndexOfAfter(SearchEndpoint, '?', query);
    assert url[..|SearchEndpoint|] == SearchEndpoint && url[|SearchEndpoint| + 1..] == query;
  }

  /** A query whose names hold no '=' or '&' and whose values hold no '&' is
      read back as the pairs it was written from. */
  lemma {:induction false} ParametersOfJoin(pairs: seq<(string, string)>)
    requires |pairs| >= 1
    requires forall k :: 0 <= k < |pairs| ==> '=' !in pairs[k].0 && '&' !in pairs[k].0 && '&' !in pairs[k].1
    ensures Parameters(Strings.Split(JoinQuery(pairs), '&')) == pairs
  {
    var (name, value) := pairs[0];
    var field := Field(pairs[0]);
    assert '&' !in field;
    ParameterOf(name, value);
    if |pairs| == 1 {
      Strings.SplitWithout(field, '&');
      assert JoinQuery(pairs) == field;
      assert Strings.Split(JoinQuery(pairs), '&') == [field];
      assert Parameters([field]) == [Parameter(field)] + Parameters([field][1..]);
      assert Parameters([field]) == [(name, value)];
      assert pairs == [(name, value)];
    } else {
      var rest := JoinQuery(pairs[1..]);
      ParametersOfJoin(pairs[1..]);
      assert JoinQuery(pairs) == field + ['&'] + rest;
      Strings.SplitFirst(field, '&', rest);
      var fields := [field] + Strings.Split(rest, '&');
      assert fields[0] == field && fields[1..] == Strings.Split(rest, '&');
      assert Parameters(fields) == [(name, value)] + pairs[1..];
      assert pairs == [pairs[0]] + pairs[1..];
    }
  }

  /** The pairs the template writes around the encoded search text `e`. */
  function TemplatePairs(e: string): seq<(string, string)> {
    [("method", "foods.search.v2"), ("search_expression", e),
     ("format", "json"), ("max_results", "5"), ("page_number", "0")]
  }

  /** Joining a pair in front of a non-empty list. */
  lemma JoinCons(n: string, v: string, rest: seq<(string, string)>)
    requires |rest| >= 1
    ensures JoinQuery([(n, v)] + rest) == Field((n, v)) + ['&'] + JoinQuery(rest)
  {
    var pairs := [(n, v)] + rest;
    assert pairs[0] == (n, v) && pairs[1..] == rest;
  }

  lemma JoinThree(n3: string, v3: string, n4: string, v4: string, n5: string, v5: string)
    ensures JoinQuery([(n3, v3), (n4, v4), (n5, v5)]) ==
      Field((n3, v3)) + (['&'] + n4 + ['='] + v4) + (['&'] + n5 + ['='] + v5)
  {
    var p := [(n3, v3), (n4, v4), (n5, v5)];
    assert JoinQuery(p[2..]) == Field((n5, v5));
    JoinCons(n4, v4, p[2..]);
    assert p[1..] == [(n4, v4)] + p[2..];
    JoinCons(n3, v3, p[1..]);
    assert p == [(n3, v3)] + p[1..];
  }

  /** Five pairs join into the five `name=value` fields, separated by `&`. */
  lemma JoinFive(n1: string, v1: string, n2: string, v2: string, n3: string, v3: string,
                 n4: string, v4: string, n5: string, v5: string)
    ensures JoinQuery([(n1, v1), (n2, v2), (n3, v3), (n4, v4), (n5, v5)]) ==
      (n1 + ['='] + v1) + (['&'] + n2 + ['=']) + v2 + (['&'] + n3 + ['='] + v3) +
      (['&'] + n4 + ['='] + v4) + (['&'] + n5 + ['='] + v5)
  {
    var p := [(n1, v1), (n2, v2), (n3, v3), (n4, v4), (n5, v5)];
    var tail := (['&'] + n4 + ['='] + v4) + (['&'] + n5 + ['='] + v5);
    JoinThree(n3, v3, n4, v4, n5, v5);
    assert p[2..] == [(n3, v3), (n4, v4), (n5, v5)];
    JoinCons(n2, v2, p[2..]);
    assert p[1..] == [(n2, v2)] + p[2..];
    assert JoinQuery(p[1..]) == Field((n2, v2)) + ['&'] + Field((n3, v3)) + tail;
    JoinCons(n1, v1, p[1..]);
    assert p == [(n1, v1)] + p[1..];
  }

  lemma TemplateFieldsJoined()
    ensures "method=foods.search.v2" == "method" + ['='] + "foods.search.v2"
    ensures "&search_expression=" == ['&'] + "search_expression" + ['=']
  {
  }

  lemma TemplateOptionsJoined()
    ensures "&format=json" == ['&'] + "format" + ['='] + "json"
    ensures "&max_results=5" == ['&'] + "max_results" + ['='] + "5"
    ensures "&page_number=0" == ['&'] + "page_number" + ['='] + "0"
  {
  }

  lemma SearchQueryJoined(e: string)
    ensures SearchQuery(e) == JoinQuery(TemplatePairs(e))
  {
    TemplateFieldsJoined();
    TemplateOptionsJoined();
    JoinFive("method", "foods.search.v2", "search_expression", e, "format", "json",
             "max_results", "5", "page_number", "0");
  }

  /** The upstream URL addresses the search endpoint with exactly five query
      parameters, in the template's order, whatever the query text: the
      encoded query cannot add or alter a parameter, and it decodes back to
      the query text. */
  lemma SearchUrlParameters(q: string)
    ensures var url := SearchUrl(q);
      url[..Strings.IndexOf(url, '?')] == SearchEndpoint &&
      QueryParameters(url) == TemplatePairs(UriComponent.EncodeURIComponent(q)) &&
      UriComponent.DecodeComponent(QueryParameters(url)[1].1) == Some(q)
  {
    SearchUrlSplitsAtQuery(q);
    QueryOfSearchUrl(q);
    UriComponent.DecodeEncode(q);
  }

  lemma QueryOfSearchUrl(q: string)
    ensures QueryParameters(SearchUrl(q)) == TemplatePairs(UriComponent.EncodeURIComponent(q))
  {
    var e := UriComponent.EncodeURIComponent(q);
    UriComponent.EncodeHasNoDelimiters(q);
    SearchUrlSplitsAtQuery(q);
    SearchQueryJoined(e);
    TemplateNamesPlain(e);
    ParametersOfJoin(TemplatePairs(e));
  }

  lemma TemplateNamesPlain(e: string)
    requires '&' !in e
    ensures var pairs := TemplatePairs(e);
      forall k :: 0 <= k < |pairs| ==> '=' !in pairs[k].0 && '&' !in pairs[k].0 && '&' !in pairs[k].1
  {
  }

  /** An absent or empty query is sent as an empty `search_expression`:
      the template with nothing between "search_expression=" and "&format". */
  lemma EmptyQuerySearchUrl(q: Option<string>)
    requires q.None? || q == Some("")
    ensures SearchUrl(QueryText(q)) ==
      SearchEndpoint + "?" + "method=foods.search.v2" + "&search_expression=" + "&format=json" + "&max_results=5" + "&page_number=0"
    ensures QueryParameters(SearchUrl(QueryText(q))) == TemplatePairs("")
  {
    assert QueryText(q) == "";
    SearchUrlOfEmpty();
    SearchUrlParameters("");
  }

  lemma SearchUrlOfEmpty()
    ensures SearchUrl("") ==
      SearchEndpoint + "?" + "method=foods.search.v2" + "&search_expression=" + "&format=json" + "&max_results=5" + "&page_number=0"
  {
    assert UriComponent.EncodeURIComponent("") == "";
    var head := "method=foods.search.v2" + "&search_expression=";
    assert head + "" == head;
  }

  /** A query of unreserved characters, such as "banana", is sent as it is. */
  lemma PlainQuerySearchUrl(q: string)
    requires forall i :: 0 <= i < |q| ==> UriComponent.IsUnreserved(q[i])
    ensures QueryParameters(SearchUrl(q)) == TemplatePairs(q)
  {
    UriComponent.EncodeUnreserved(q);
    SearchUrlParameters(q);
  }

  /** Once a token is in hand the upstream reply is relayed verbatim, 4xx and
      5xx statuses included; an error in the upstream call becomes a 500
      carrying that error's message. */
  lemma RelayOutcome(token: Option<string>, upstream: UpstreamReply)
    ensures upstream.Upstream? ==> Relay(Success(token), upstream) == Response(upstream.status, upstream.text)
    ensures upstream.TransportError? ==>
      Relay(Success(token), upstream).status == 500 &&
      JsonString.ErrorMessage(Relay(Success(token), upstream).body) == Some(upstream.message)
  {
    if upstream.TransportError? {
      JsonString.ErrorMessageOfObject(upstream.message);
    }
  }

  /** One request end to end: when the token step fails the caller gets a
      500 with its message, no search is sent and the cache is unchanged;
      otherwise exactly one search is sent, to the template URL for the
      defaulted query with the token as bearer credential, and its outcome
      is relayed. */
  lemma SearchOutcome(s: TokenCache.CacheState, q: Option<string>,
                      clientId: Option<string>, clientSecret: Option<string>,
                      now: int, tokenReply: TokenCache.TokenReply, now2: int,
                      upstream: UpstreamReply)
    ensures var f := TokenCache.Fetch(s, clientId, clientSecret, now, tokenReply, now2);
      var h := Search(s, q, clientId, clientSecret, now, tokenReply, now2, upstream);
      h.tokenRequest == f.request && h.state == f.state &&
      (f.result.Failure? ==>
        h.state == s && h.searchRequest.None? && h.response.status == 500 &&
        JsonString.ErrorMessage(h.response.body) == Some(f.result.error)) &&
      (f.result.Success? ==>
        h.searchRequest == Some(SearchRequest(SearchUrl(QueryText(q)), "Bearer " + TokenCache.Interpolate(f.result.value))) &&
        h.response == Relay(f.result, upstream))
  {
  }

  /** A rejected exchange (401 "invalid_client") reaches the caller as a 500
      whose error names the status and the provider's body. */
  lemma InvalidClientScenario(s: TokenCache.CacheState, q: Option<string>,
                              clientId: Option<string>, clientSecret: Option<string>,
                              now: int, json: TokenCache.TokenJson, now2: int,
                              upstream: UpstreamReply)
    requires !TokenCache.IsFresh(s, now)
    ensures var h := Search(s, q, clientId, clientSecret, now, TokenCache.Reply(401, "invalid_client", json), now2, upstream);
      h.state == s && h.searchRequest.None? && h.response.status == 500 &&
      JsonString.ErrorMessage(h.response.body) == Some("Token error: 401 invalid_client")
  {
    assert Decimal.NatToString(401) == "401";
    InvalidClientMessage();
    SearchOutcome(s, q, clientId, clientSecret, now, TokenCache.Reply(401, "invalid_client", json), now2, upstream);
  }

  lemma InvalidClientMessage()
    ensures TokenCache.TokenErrorPrefix + "401" + " " + "invalid_client" == "Token error: 401 invalid_client"
  {
  }

  /** With a reusable token, an upstream 404 and its body reach the caller unmodified. */
  lemma NotFoundPassthroughScenario(s: TokenCache.CacheState, q: Option<string>,
                                    clientId: Option<string>, clientSecret: Option<string>,
                                    now: int, tokenReply: TokenCache.TokenReply, now2: int)
    requires TokenCache.IsFresh(s, now)
    ensures var h := Search(s, q, clientId, clientSecret, now, tokenReply, now2, Upstream(404, "{\"error\":{\"code\":5}}"));
      h.response == Response(404, "{\"error\":{\"code\":5}}") && h.tokenRequest.None? && h.state == s &&
      h.searchRequest == Some(SearchRequest(SearchUrl(QueryText(q)), "Bearer " + s.token.value))
  {
  }
}
