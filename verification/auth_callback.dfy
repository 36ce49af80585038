/**
  The auth callback route: which site URL it redirects to. The configured
  `NEXT_PUBLIC_SITE_URL` is kept if it already has an http or https scheme
  (in any letter case), gets `https://` in front otherwise, and when it is
  unset or empty the request's own protocol and host are used.
 */
module AuthCallback {
  import opened JsValues
  import opened JsText

  /** `/^https?:\/\//i.test(s)`. The pattern has no non-ASCII letters, so
      case-insensitive matching is ASCII lower-casing. */
  predicate HasHttpScheme(s: string) {
    StartsWith(Lower(s), "http://") || StartsWith(Lower(s), "https://")
  }

  /** `resolveSiteUrl`. `protocol` is the request URL's protocol with its
      colon (`"https:"`). */
  function ResolveSiteUrl(configured: Option<string>, protocol: string, host: string): (url: string)
    ensures Truthy(configured) && HasHttpScheme(configured.value) ==> url == configured.value
    ensures Truthy(configured) && !HasHttpScheme(configured.value) ==> url == "https://" + configured.value
    ensures !Truthy(configured) ==> url == protocol + "//" + host
  {
    if Truthy(configured) && HasHttpScheme(configured.value) then configured.value
    else if Truthy(configured) then "https://" + configured.value
    else protocol + "//" + host
  }

  /** Whenever a site URL is configured, the resolved URL has an http or
      https scheme. */
  lemma ConfiguredHasScheme(configured: Option<string>, protocol: string, host: string)
    requires Truthy(configured)
    ensures HasHttpScheme(ResolveSiteUrl(configured, protocol, host))
  {
    if !HasHttpScheme(configured.value) {
      LowerAppend("https://", configured.value);
      assert Lower("https://") == "https://";
    }
  }

  /** Resolving a configured URL is idempotent: feeding the result back in as
      the configuration gives it back. */
  lemma ResolveIdempotent(configured: Option<string>, protocol: string, host: string)
    requires Truthy(configured)
    ensures var url := ResolveSiteUrl(configured, protocol, host);
      ResolveSiteUrl(Some(url), protocol, host) == url
  {
    ConfiguredHasScheme(configured, protocol, host);
  }

  /** A redirect to `path` resolved against `base`, as `new URL(path, base)`. */
  datatype Redirect = Redirect(base: string, path: string)

  /** `GET`: always a redirect to `/` on the resolved site. */
  function CallbackRedirect(configured: Option<string>, protocol: string, host: string): (r: Redirect)
    ensures r.path == "/"
    ensures Truthy(configured) ==> HasHttpScheme(r.base)
    ensures !Truthy(configured) ==> r.base == protocol + "//" + host
  {
    var url := ResolveSiteUrl(configured, protocol, host);
    assert Truthy(configured) ==> HasHttpScheme(url) by {
      if Truthy(configured) {
        ConfiguredHasScheme(configured, protocol, host);
      }
    }
    Redirect(url, "/")
  }
}
