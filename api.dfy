/**
 * The HTTP client's request interceptor: before every request it reads the `token` key of
 * `localStorage` and, when that holds a non-empty string, adds an `Authorization: Bearer` header.
 */
module Api {
  import opened Wrappers
  import opened Storage

  /** Request headers, by name. */
  type Headers = map<string, string>

  const ContentType := "Content-Type"
  const Authorization := "Authorization"

  /** The headers every request starts with. */
  const DefaultHeaders: Headers := map[ContentType := "application/json"]

  /** The headers of a request once the interceptor has run over storage `items`. */
  function AuthorizedHeaders(headers: Headers, items: map<string, Stored>): (r: Headers)
    requires WellFormed(items)
    ensures Truthy(Lookup(items, TokenKey)) ==>
              TokenKey in items && r == headers[Authorization := "Bearer " + items[TokenKey].text]
    ensures !Truthy(Lookup(items, TokenKey)) ==> r == headers
    ensures forall k :: k in headers && k != Authorization ==> k in r && r[k] == headers[k]
    ensures r.Keys == headers.Keys || r.Keys == headers.Keys + {Authorization}
  {
    var token := TextAt(items, TokenKey);
    if token.Some? && token.value != "" then headers[Authorization := "Bearer " + token.value]
    else headers
  }

  /** The request configuration the interceptor receives and hands on. */
  class RequestConfig {
    var headers: Headers

    constructor (headers: Headers)
      ensures this.headers == headers
    {
      this.headers := headers;
    }
  }

  /** The interceptor: adds the bearer header in place and returns the same configuration. */
  method InterceptRequest(config: RequestConfig, storage: LocalStorage) returns (r: RequestConfig)
    requires storage.Valid()
    modifies config
    ensures r == config
    ensures config.headers == AuthorizedHeaders(old(config.headers), storage.items)
  {
    var token := storage.GetItem(TokenKey);
    if Truthy(token) {
      config.headers := config.headers[Authorization := "Bearer " + token.value.text];
    }
    r := config;
  }

  /** Only the `token` key matters: `authToken`, `user` and every other key are ignored. */
  lemma InterceptorReadsOnlyToken(headers: Headers, a: map<string, Stored>, b: map<string, Stored>)
    requires WellFormed(a) && WellFormed(b)
    requires Lookup(a, TokenKey) == Lookup(b, TokenKey)
    ensures AuthorizedHeaders(headers, a) == AuthorizedHeaders(headers, b)
  {
  }

  /** In particular, writing `authToken` never changes what the interceptor sends. */
  lemma InterceptorIgnoresAuthToken(headers: Headers, items: map<string, Stored>, value: string)
    requires WellFormed(items)
    ensures WellFormed(items[AuthTokenKey := Raw(value)])
    ensures AuthorizedHeaders(headers, items[AuthTokenKey := Raw(value)]) == AuthorizedHeaders(headers, items)
  {
    InterceptorReadsOnlyToken(headers, items[AuthTokenKey := Raw(value)], items);
  }

  /** The default `Content-Type: application/json` survives the interceptor. */
  lemma DefaultContentTypeKept(items: map<string, Stored>)
    requires WellFormed(items)
    ensures ContentType in AuthorizedHeaders(DefaultHeaders, items)
    ensures AuthorizedHeaders(DefaultHeaders, items)[ContentType] == "application/json"
  {
  }

  /** Running the interceptor again, as a retried request does, changes nothing more. */
  lemma InterceptorIdempotent(headers: Headers, items: map<string, Stored>)
    requires WellFormed(items)
    ensures AuthorizedHeaders(AuthorizedHeaders(headers, items), items) == AuthorizedHeaders(headers, items)
  {
  }
}
