# FatSecret search relay — a Dafny model

The relay is a small HTTP server with one route, `GET /search`. It forwards a
food search to the FatSecret platform API and sends the upstream answer back
to the caller. To call the API it needs an OAuth 2.0 access token. It obtains
one with a client-credentials exchange (section 4.4 of RFC 6749), sending HTTP
Basic credentials (section 2 of RFC 7617), and keeps it in a process-wide
cache. The cache holds the token and its expiry time. The token is reused
while it is non-empty and the clock is more than 30 000 ms before expiry.

The model has two parts:

- `TokenCache` (`token_cache.dfy`) is the cache.
  - The class `TokenCache.TokenCache` has the source's two mutable fields:
    `token` (null before the first exchange) and `expiresAt` (epoch
    milliseconds).
  - Its method `FetchAccessToken` is proved against the specification
    function `Fetch`. `Fetch` works on a `CacheState` value.
  - Both clock readings are parameters. One is taken before the cache check,
    the other after the exchange. So is the identity provider's reply.
  - The method also returns the exchange request it sends, if any. This makes
    "no exchange" and "exactly one exchange" statements about the result.
- `SearchRelay` (`search_relay.dfy`) is the `/search` handler.
  - Query defaulting, the upstream URL template, the bearer header and the
    relay-or-500 decision are pure functions.
  - `HandleSearch` is the handler over the shared cache. It is proved against
    the specification function `Search`.

Each library step the relay depends on is modelled and paired with an inverse:

- `Utf8`: `Buffer.from` on a string, and the byte step of `encodeURIComponent`
  (RFC 3629).
- `Base64`: `toString("base64")` (section 4 of RFC 4648).
- `UriComponent`: `encodeURIComponent` as the Encode operation of ECMA-262
  defines it.
- `JsonString`: `JSON.stringify` of the error object.
- `Decimal`: the decimal text of a status code.

Each of these modules proves that decoding undoes encoding. On top of them:

- The Basic header is shown to carry exactly the credentials.
- The upstream URL is shown to carry exactly the five template parameters, in
  order. Its `search_expression` decodes back to the query.
- The 500 body is shown to carry exactly the error's message.

`server.js` does not check the credentials for absence. An unset variable is
interpolated as the text `undefined` (server.js:24). Credentials are therefore `Option<string>`, and
`None` prints as `"undefined"`.

## Model

| member | source | states |
|---|---|---|
| TokenCache.TokenCache.constructor | server.js:13-14 | The cache starts with no token and an expiry of 0. |
| TokenCache.Truthy | server.js:17 | JavaScript truthiness of the cached token: it is set and not empty. |
| TokenCache.IsFresh | server.js:17 | The reuse condition: a truthy token and `now < expiresAt - 30000`. |
| TokenCache.Interpolate | server.js:24 | A credential as a template literal prints it: its text, or "undefined" when unset. |
| TokenCache.UserPass | server.js:24 | The credentials text `${CLIENT_ID}:${CLIENT_SECRET}`. |
| TokenCache.UserPassSplits | server.js:24 | When the client id holds no ':', splitting the credentials at their first ':' gives back the id and the secret. |
| TokenCache.BasicAuthorization | server.js:24-29 | The header "Basic " followed by the base 64 of the UTF-8 credentials. `BasicAuthorizationCarriesCredentials` states what it carries. |
| TokenCache.ExchangeRequest | server.js:19-33 | The exchange request: a POST to the token endpoint with the Basic header, the form content type and the body `grant_type=client_credentials&scope=basic`. |
| TokenCache.TokenErrorMessage | server.js:37 | The thrown message "Token error: " + status + " " + body text. `ReadTokenErrorMessage` reads it back. |
| TokenCache.LifetimeSeconds | server.js:42 | `expires_in \|\| 3600` on an optional integer. `LifetimeDefault` states its cases. |
| TokenCache.Fetch | server.js:16-44 | One call on a cache state. An exchange request is produced exactly when the cached token is not fresh, and it is the Basic-authenticated form POST. A failure leaves the state unchanged. A success returns the token the new state holds. A hit returns the cached token with the state unchanged. |
| TokenCache.Exchange | server.js:35-43 | Handling the provider's reply. It succeeds exactly when the reply arrived with a 2xx status and a readable JSON body. Any failure leaves the cache as it was. A success returns the token the new cache holds. |
| TokenCache.TokenCache.FetchAccessToken | server.js:16-44 | The method's new fields, result and request are exactly what `Fetch` gives for the old fields, both clock readings, the credentials and the reply. |
| TokenCache.TokenCache.ReceiveToken | server.js:35-43 | The method's new fields and result are exactly what `Exchange` gives for the old fields and the reply. |
| TokenCache.FetchReusesFreshToken | server.js:17 | Cache hit. A truthy token with `now < expiresAt - 30000` is returned, no exchange is made, and both fields are unchanged, whatever the provider would reply. |
| TokenCache.FetchExchangesWhenStale | server.js:17-33 | A null or empty token, or `now >= expiresAt - 30000`, gives exactly one exchange request: POST to the token endpoint, Basic credentials, the form content type, and the body `grant_type=client_credentials&scope=basic`. |
| TokenCache.FetchRejected | server.js:35-38 | A non-2xx reply fails with exactly "Token error: " + status + " " + body text and leaves both fields unchanged. |
| TokenCache.FetchGranted | server.js:40-43 | A 2xx reply sets the token to `access_token` and the expiry to `now2 + (expires_in \|\| 3600) * 1000`, and returns the new token. A missing `expires_in` gives exactly `now2 + 3600000`. |
| TokenCache.HitAfterRefresh | server.js:17-43 | After a successful refresh, a later call is a hit exactly when the new token is non-empty and the later clock is more than 30 s before the new expiry. At the same clock reading, it is a hit exactly when the token is non-empty and the lifetime exceeds 30 s. A hit returns the same token and state. |
| TokenCache.FreshAfterGrant | server.js:17-42 | A token granted at `now2` for `n` seconds is reusable at `later` exactly when it is non-empty and `later < now2 + n * 1000 - 30000`. At `later == now2` that means exactly `n > 30`. |
| TokenCache.LifetimeDefault | server.js:42 | `expires_in \|\| 3600` is never 0. An absent or zero value gives 3 600 000 ms. Any other value is used as given. |
| TokenCache.BasicAuthorizationCarriesCredentials | server.js:24-29 | The header is "Basic " followed by base 64. Decoding the base 64 and then the UTF-8 gives back exactly `id:secret`, with unset values as "undefined". |
| TokenCache.ReadTokenErrorMessage | server.js:37 | The status and the body text are read back exactly from the token-error message. |
| Decimal.NatToString | server.js:37 | A status's decimal text is non-empty, all digits, and has no leading zero. |
| Decimal.ParseNatToString | server.js:37 | Parsing the decimal text of a status gives back the status. |
| Decimal.NatToStringInjective | server.js:37 | Distinct statuses have distinct decimal texts. |
| TokenCache.TokenErrorMessageInjective | server.js:37 | Two token-error messages are equal only when both their statuses and their body texts are equal. |
| Utf8.EncodeChar | server.js:24 | One code point takes 1 to 4 bytes. The lead byte announces the length and the rest are continuation bytes. A single byte, equal to the code point, is used exactly for ASCII. |
| Utf8.Encode | server.js:24 | The UTF-8 bytes of a string, character by character. There are at least as many bytes as characters. |
| Utf8.DecodeEncode | server.js:24 | Decoding the UTF-8 bytes of any string gives back the string. |
| Utf8.EncodeInjective | server.js:24 | Different credentials give different bytes. |
| Utf8.EncodeAppend | server.js:24 | The encoding of a concatenation is the concatenation of the encodings. |
| Utf8.EncodeAscii | server.js:24 | An ASCII string encodes to one byte per character, each equal to its code. |
| Base64.Encode | server.js:24 | The base 64 text has `4 * ceil(n / 3)` characters, all from the alphabet or '='. |
| Base64.DecodeEncode | server.js:24 | Decoding the base 64 text of any bytes gives back those bytes. |
| Bytes.HexDigit | server.js:53 | A digit below 16 is written as a hexadecimal character whose value reads back as that digit. |
| UriComponent.EncodeURIComponent | server.js:53 | Every character of the encoding is unreserved or '%'. |
| UriComponent.EncodeAsBytes | server.js:53 | The encoding escapes the UTF-8 bytes of the text. Unreserved ASCII bytes are kept as they are. Every other byte becomes '%' and two upper-case hexadecimal digits. |
| UriComponent.PercentDecodeEscapeBytes | server.js:53 | Percent-decoding the escaped bytes gives back the bytes. |
| UriComponent.DecodeEncode | server.js:53 | Decoding the component gives back the query text. |
| UriComponent.EncodeHasNoDelimiters | server.js:53 | The encoded query contains no '&', '=', '?', '#' or space. |
| UriComponent.EncodeUnreserved | server.js:53 | A text made only of unreserved characters is sent unchanged. |
| JsonString.EscapeChar | server.js:65 | A character stays as it is exactly when it is not '"', '\\' or a control character. Otherwise it becomes a backslash escape of at most 6 characters. |
| JsonString.EscapeAll | server.js:65 | The escaped message contains no control characters. |
| JsonString.Quote | server.js:65 | The JSON string literal of a message: it begins and ends with '"'. `UnquoteQuote` reads it back. |
| JsonString.ErrorObject | server.js:65 | The body `{"error":<message>}` that `res.json({ error: err.message })` writes. `ErrorMessageOfObject` reads the message back. |
| JsonString.UnescapeEscapeAll | server.js:65 | Unescaping the escaped message gives back the message. |
| JsonString.UnquoteQuote | server.js:65 | The JSON string literal of a message reads back as the message. |
| JsonString.ErrorMessageOfObject | server.js:65 | The `error` member of the body `{"error":...}` reads back as exactly the message. |
| SearchRelay.QueryText | server.js:48 | `q \|\| ""`: the text is empty exactly when `q` is absent or empty. Otherwise it is `q`. |
| SearchRelay.SearchQuery | server.js:53-54 | The query template with the encoded text as `search_expression`. `SearchQueryJoined` shows it is the five pairs joined. |
| SearchRelay.SearchUrl | server.js:52-54 | The search endpoint, '?', and the query template around the encoded text. `SearchUrlParameters` states what it carries. |
| SearchRelay.SearchQueryJoined | server.js:53-54 | The query text is exactly the five template pairs written as `name=value` and joined with '&', in order. |
| SearchRelay.SearchUrlParameters | server.js:52-54 | The URL before its first '?' is the search endpoint. Its query reads back as exactly the five template pairs in order: `method`, `search_expression` (the encoded text), `format`, `max_results`, `page_number`. The `search_expression` value decodes to the query text. |
| SearchRelay.ParametersOfJoin | server.js:52-54 | `name=value` fields joined with '&' read back as the same pairs when names hold no '=' or '&' and values hold no '&'. |
| SearchRelay.EmptyQuerySearchUrl | server.js:48-54 | An absent or empty query gives the template with nothing after `search_expression=`. Its parameters are the template pairs with an empty search expression. |
| SearchRelay.PlainQuerySearchUrl | server.js:52-54 | A query of unreserved characters, such as "banana", is sent unchanged as the `search_expression` value. |
| SearchRelay.Relay | server.js:56-65 | A failure in the token step gives status 500 and a JSON body whose `error` is that failure's message. |
| SearchRelay.ErrorResponse | server.js:65 | The catch branch. The status is 500 and the body's `error` member reads back as exactly the message. |
| SearchRelay.BearerAuthorization | server.js:57 | The header starts with "Bearer " and is followed by exactly the token. |
| SearchRelay.RelayOutcome | server.js:56-65 | With a token, the upstream status (4xx and 5xx included) and body are passed through unchanged. An error in the upstream call gives 500 with that error's message. |
| SearchRelay.Search | server.js:46-67 | A search request is sent exactly when the token step succeeds. Without one, the status is 500. |
| SearchRelay.HandleSearch | server.js:46-67 | The method's new cache, response, token request and search request are exactly what `Search` gives for the old cache and the inputs. |
| SearchRelay.SearchOutcome | server.js:46-67 | The handler's cache and token request are those of the token step. If the token step fails: 500 with its message, no search, and an unchanged cache. Otherwise: exactly one search, to the template URL for the defaulted query, with `Bearer <token>`, and its outcome relayed. |
| SearchRelay.InvalidClientScenario | server.js:35-65 | A stale cache and a 401 "invalid_client" reply give a 500 whose error is "Token error: 401 invalid_client". No search is sent and the cache is unchanged. |
| SearchRelay.NotFoundPassthroughScenario | server.js:56-62 | With a fresh token, an upstream 404 and its body reach the caller unchanged. No exchange is made, and exactly one search is sent with that token. |

## Left out

- Express wiring is not modelled: app creation, `express.json()`, route registration, `app.listen` and the `PORT` default (server.js:5-6, 11, 70-72). It holds no logic.
- Reading the environment (server.js:9-10): the two credentials are inputs. No configuration check is added, because the code has none.
- `fetch`, `res.text()`, `res.json()` and JSON parsing are inputs to the model (server.js:26-33, 36, 40, 56-60).
  - The token reply is a network error, or a status with its body as text and as parsed JSON, or the parse error's message.
  - The upstream reply is a transport error or a status with its body text.
- `Date.now()` is not modelled: its two readings are the integer parameters `now` and `now2`.
- Concurrency between requests across `await` is not modelled: calls are sequential. Two requests that both see a stale cache would each refresh, and the last writer would win.
- `console.error` and the `Content-Type` header are not modelled (server.js:61, 64). They are output only.
- `URLSearchParams` is not modelled: the form body is the text it produces for these two fixed fields.
- TokenCache.TokenJson: `access_token` is a string or absent, and `expires_in` an integer or absent. Other JSON types are not modelled: non-string tokens, fractional or string lifetimes coerced by `*`, and floating-point rounding of the expiry.
- SearchRelay.QueryText: `q` is a string or absent. Express's array and object forms of `q` are not modelled, nor their string coercion.
- UriComponent.EncodeURIComponent: characters are Unicode scalar values. Lone surrogates, for which `encodeURIComponent` throws `URIError` and `Buffer.from` substitutes U+FFFD, cannot occur in the model.
- SearchRelay.Relay: the upstream status is relayed as a number. Express's `RangeError` for a status outside 100-999 is not modelled.
- The error body is modelled for thrown `Error` objects, whose `message` is a string. Non-`Error` throws, whose `message` would be undefined, are not modelled.
