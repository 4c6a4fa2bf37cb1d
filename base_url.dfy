/**
 * The base URL given to `aggregate` and `download`: forced to end in `/`
 * so that joining a relative path appends to it instead of replacing its
 * last segment.
 */
module BaseUrl {
  import opened Text

  predicate EndsWithSlash(url: string) {
    |url| > 0 && url[|url| - 1] == '/'
  }

  /** The URL with a `/` appended unless it already ends with one. */
  function WithTrailingSlash(url: string): string {
    if EndsWithSlash(url) then url else url + "/"
  }

  /**
   * The normalised URL ends with `/`, keeps the given URL as its prefix and
   * adds at most that one character; a URL already ending in `/` is left
   * as it is, so normalising twice changes nothing.
   */
  lemma TrailingSlashNormalizes(url: string)
    ensures EndsWithSlash(WithTrailingSlash(url))
    ensures url <= WithTrailingSlash(url) && |WithTrailingSlash(url)| <= |url| + 1
    ensures EndsWithSlash(url) ==> WithTrailingSlash(url) == url
    ensures WithTrailingSlash(WithTrailingSlash(url)) == WithTrailingSlash(url)
  {
  }

  /** The in-place normalisation of the `url` string that both entry points perform. */
  method NormalizeBaseUrl(url: string) returns (r: string)
    ensures r == WithTrailingSlash(url)
  {
    r := url;
    if !EndsWithSlash(r) {
      r := r + "/";
    }
  }

  /**
   * `Url::join` of a plain relative path (no scheme, no leading `/`, no
   * `.` or `..` segments, no query or fragment): the reference replaces
   * whatever follows the base's last `/` (the "merge" step of section 5.2.3
   * of RFC 3986).
   */
  function ResolveRelative(base: string, rel: string): string {
    if '/' in base then base[..LastIndexOf(base, '/') + 1] + rel else rel
  }

  /** Against a base ending in `/`, joining simply appends. */
  lemma ResolveAgainstDirectory(base: string, rel: string)
    requires EndsWithSlash(base)
    ensures ResolveRelative(base, rel) == base + rel
  {
  }

  /** After normalisation the whole given URL survives the join. */
  lemma NormalizedBaseKeepsUrl(url: string, rel: string)
    ensures ResolveRelative(WithTrailingSlash(url), rel) == WithTrailingSlash(url) + rel
    ensures url <= ResolveRelative(WithTrailingSlash(url), rel)
  {
  }

  /**
   * Without the trailing `/` the join drops the base's last segment, for a
   * base whose path has a non-empty last segment (its last `/` is not part
   * of the `//` before the host): the base is a directory part ending in `/` followed by a non-empty last
   * segment, and the result is that directory part followed by `rel`,
   * never the result after normalisation. For example
   * `https://host/files` joined with `.dumbsync` gives `https://host/.dumbsync`.
   */
  lemma UnnormalizedBaseDropsLastSegment(base: string, rel: string)
    requires '/' in base && !EndsWithSlash(base)
    requires LastIndexOf(base, '/') > 0 && base[LastIndexOf(base, '/') - 1] != '/'
    ensures var dir := ResolveRelative(base, "");
      && EndsWithSlash(dir) && dir < base && '/' !in base[|dir|..]
      && ResolveRelative(base, rel) == dir + rel
    ensures ResolveRelative(base, rel) != ResolveRelative(WithTrailingSlash(base), rel)
  {
    var k := LastIndexOf(base, '/');
    assert base[..k + 1] + "" == base[..k + 1];
    NormalizedBaseKeepsUrl(base, rel);
    assert |ResolveRelative(base, rel)| < |ResolveRelative(WithTrailingSlash(base), rel)|;
  }
}
