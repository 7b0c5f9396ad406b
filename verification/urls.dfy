/**
 * Remote URL derivation (index.mjs lines 54 and 96): a repository path loses one
 * leading `public/` (bundles) or `client/` (the service worker) and is appended
 * to the site's origin.
 */
module Urls {

  const Origin: string := "https://galatadergisi.org/"
  const PublicPrefix: string := "public/"
  const ClientPrefix: string := "client/"

  /** `path.replace(/^prefix\//, '')`: the anchored pattern can only match at the
      start and is replaced at most once. */
  function StripPrefix(path: string, prefix: string): (r: string)
    ensures prefix <= path ==> prefix + r == path
    ensures !(prefix <= path) ==> r == path
  {
    if prefix <= path then path[|prefix|..] else path
  }

  /** The URL a repository path is fetched from. */
  function DeriveUrl(path: string, prefix: string): (url: string)
    ensures Origin <= url
    ensures prefix <= path ==> url == Origin + path[|prefix|..]
    ensures !(prefix <= path) ==> url == Origin + path
  {
    Origin + StripPrefix(path, prefix)
  }

  /** Inverse of DeriveUrl for paths carrying the prefix: dropping the origin and
      putting the prefix back gives the path again. */
  function PathOfUrl(url: string, prefix: string): string
    requires Origin <= url
  {
    prefix + url[|Origin|..]
  }

  lemma UrlRoundTrip(path: string, prefix: string)
    requires prefix <= path
    ensures PathOfUrl(DeriveUrl(path, prefix), prefix) == path
  {
    var url := DeriveUrl(path, prefix);
    assert url[|Origin|..] == path[|prefix|..];
  }

  /** Two paths with the prefix never share a URL. */
  lemma DeriveUrlInjective(p: string, q: string, prefix: string)
    requires prefix <= p && prefix <= q
    requires DeriveUrl(p, prefix) == DeriveUrl(q, prefix)
    ensures p == q
  {
    UrlRoundTrip(p, prefix);
    UrlRoundTrip(q, prefix);
  }

  /** The prefix is removed once only: a doubled prefix keeps its second copy. */
  lemma StripPrefixOnce(rest: string, prefix: string)
    ensures DeriveUrl(prefix + prefix + rest, prefix) == Origin + prefix + rest
  {
    assert prefix <= prefix + prefix + rest;
    assert (prefix + prefix + rest)[|prefix|..] == prefix + rest;
  }

  /** The service worker is fetched from the site root. */
  lemma ServiceWorkerUrlValue()
    ensures DeriveUrl("client/service-worker.js", ClientPrefix) == "https://galatadergisi.org/service-worker.js"
  {
    assert ClientPrefix <= "client/service-worker.js";
  }
}
