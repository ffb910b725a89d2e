/**
 * `checkApiKey`, the middleware in front of the content routes: a request
 * passes when its `x-api-key` header is strictly equal to the configured
 * key and either its `Origin` header is one of the allowed origins or its
 * `Referer` header starts with one of them. The configured key is an
 * input (`FRONTEND_API_KEY` may be unset, `None`).
 */
module ApiKeyGate {
  import opened Wrappers
  import opened JsStrings

  const AllowedOrigins: seq<string> := ["https://seudominio.com", "http://localhost:5173"]

  /** `next()`, or a 403 answer. */
  datatype Verdict = Next | Forbidden

  /** `list.includes(v)`: strict equality against each entry, so an
      absent value is never included. */
  function Includes(list: seq<string>, v: Option<string>): (r: bool)
    ensures r <==> v.Some? && v.value in list
  {
    if |list| == 0 || v.None? then false
    else list[0] == v.value || Includes(list[1..], v)
  }

  /** `list.some(o => v?.startsWith(o))`: an absent value gives `undefined`
      for every entry, which is falsy. */
  function SomePrefixOf(list: seq<string>, v: Option<string>): (r: bool)
    ensures r <==> v.Some? && exists i :: 0 <= i < |list| && list[i] <= v.value
  {
    if |list| == 0 || v.None? then false
    else StartsWith(v.value, list[0]) || SomePrefixOf(list[1..], v)
  }

  /** The middleware's decision. */
  function CheckApiKey(apiKey: Option<string>, origin: Option<string>, referer: Option<string>,
                       configuredKey: Option<string>): (r: Verdict)
    ensures r == Next <==>
              && apiKey == configuredKey
              && (|| (origin.Some? && origin.value in AllowedOrigins)
                  || (referer.Some? && exists i :: 0 <= i < |AllowedOrigins| && AllowedOrigins[i] <= referer.value))
  {
    var isAllowedOrigin := Includes(AllowedOrigins, origin) || SomePrefixOf(AllowedOrigins, referer);
    if apiKey != configuredKey || !isAllowedOrigin then Forbidden else Next
  }

  /** A key that differs from the configured one is refused, whatever the
      origin and referer. */
  lemma WrongKeyRefused(apiKey: Option<string>, origin: Option<string>, referer: Option<string>,
                        configuredKey: Option<string>)
    requires apiKey != configuredKey
    ensures CheckApiKey(apiKey, origin, referer, configuredKey) == Forbidden
  {
  }

  /** With neither header allowed the request is refused, whatever the key. */
  lemma UnknownOriginRefused(apiKey: Option<string>, origin: Option<string>, referer: Option<string>,
                             configuredKey: Option<string>)
    requires origin.None? || origin.value !in AllowedOrigins
    requires referer.None? || forall i :: 0 <= i < |AllowedOrigins| ==> !(AllowedOrigins[i] <= referer.value)
    ensures CheckApiKey(apiKey, origin, referer, configuredKey) == Forbidden
  {
  }

  /** A matching key and an exactly allowed origin pass. */
  lemma AllowedOriginPasses(apiKey: Option<string>, origin: string, referer: Option<string>)
    requires origin in AllowedOrigins
    ensures CheckApiKey(apiKey, Some(origin), referer, apiKey) == Next
  {
  }

  /** A matching key passes on a referer that merely starts with an allowed
      origin, with no Origin header at all: a look-alike host such as
      `http://localhost:5173.example` is let through. */
  lemma RefererPrefixPasses(apiKey: Option<string>, suffix: string)
    ensures CheckApiKey(apiKey, None, Some(AllowedOrigins[1] + suffix), apiKey) == Next
  {
    assert AllowedOrigins[1] <= AllowedOrigins[1] + suffix;
  }

  /** No key header and no configured key compare equal, so the key check
      passes. */
  lemma MissingKeyMatchesUnsetKey(origin: string)
    requires origin in AllowedOrigins
    ensures CheckApiKey(None, Some(origin), None, None) == Next
  {
  }
}
