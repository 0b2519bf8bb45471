/** The proxy's URL acceptance rule (`SanitizeUrl`, jsonp.py:63-78). */
module UrlSafety {
  import opened Base

  /** The five parts `urlparse.urlsplit` yields; the splitter has already
      lower-cased the scheme. */
  datatype SplitUrl = SplitUrl(scheme: string, netloc: string, path: string, query: string, fragment: string)

  /** Accepts only http and https URLs whose network location contains a dot,
      and drops the fragment; anything else is a 400 Bad Request. */
  function SanitizeUrl(url: SplitUrl): (r: Result<SplitUrl>)
    ensures r.Ok? <==> (url.scheme == "http" || url.scheme == "https") && HasChar(url.netloc, '.')
    ensures r.Ok? ==> r.value.scheme == url.scheme && r.value.netloc == url.netloc
                      && r.value.path == url.path && r.value.query == url.query
                      && r.value.fragment == ""
    ensures r.Err? ==> r.error == HttpError(BAD_REQUEST)
  {
    if (url.scheme == "http" || url.scheme == "https") && HasChar(url.netloc, '.') then
      Ok(SplitUrl(url.scheme, url.netloc, url.path, url.query, ""))
    else
      Err(HttpError(BAD_REQUEST))
  }

  /** A sanitised URL passes the rule again unchanged. */
  lemma SanitizeUrlIdempotent(url: SplitUrl)
    requires SanitizeUrl(url).Ok?
    ensures SanitizeUrl(SanitizeUrl(url).value) == SanitizeUrl(url)
  {
  }

  /** The fragment never affects the outcome: URLs that differ only after
      the `#` are accepted or refused together and sanitise to the same URL. */
  lemma SanitizeUrlIgnoresFragment(url: SplitUrl, fragment: string)
    ensures SanitizeUrl(url.(fragment := fragment)) == SanitizeUrl(url)
  {
  }
}
