/** The two extractors the crawler runs on every sitemap: `get_urls_from_source`
    (page URLs, with relative links resolved and unwanted entries dropped) and
    `extract_sitemaps_from_index` (nested sitemaps). The HTTP request and the regular
    expressions are not modelled: a fetch yields either a request error or the lists
    of matches the regular expressions find in the fetched text. */
module Extract {
  import opened Text
  import opened Collections
  import opened UrlFilter

  /** The outcome of `session.get` followed by `raise_for_status`: a `RequestException`,
      or the matches found in the response text. */
  datatype Fetched<T> = RequestError | Body(matches: T)

  /** The two scans `get_urls_from_source` makes of a page: the bodies of `<loc>` tags
      and the values of `href` attributes, each in document order. */
  datatype PageMatches = PageMatches(locs: seq<string>, hrefs: seq<string>)

  predicate IsSlash(c: char) {
    c == '/'
  }

  /** An href is kept as it is when it starts with `http`; otherwise every leading slash
      is stripped and it is appended to the page's domain after one slash. */
  function Resolve(domain: string, href: string): (r: string)
    ensures StartsWith(href, "http") ==> r == href
    ensures !StartsWith(href, "http") ==>
      StartsWith(r, domain + "/") &&
      var rest := r[|domain| + 1..];
      EndsWith(href, rest) && (rest == [] || rest[0] != '/') &&
      forall k :: 0 <= k < |href| - |rest| ==> href[k] == '/'
  {
    if StartsWith(href, "http") then href
    else
      var rest := StripLeft(href, IsSlash);
      assert (domain + "/" + rest)[|domain| + 1..] == rest;
      domain + "/" + rest
  }

  /** The list the cleaning loop runs over: the `<loc>` bodies, or the resolved hrefs
      when there is no `<loc>` at all. */
  function Candidates(domain: string, m: PageMatches): (r: seq<string>)
    ensures m.locs != [] ==> r == m.locs
    ensures m.locs == [] ==> |r| == |m.hrefs| && forall i :: 0 <= i < |r| ==>
      (StartsWith(m.hrefs[i], "http") ==> r[i] == m.hrefs[i]) &&
      (!StartsWith(m.hrefs[i], "http") ==>
        StartsWith(r[i], domain + "/") && (|r[i]| == |domain| + 1 || r[i][|domain| + 1] != '/'))
    ensures m.locs == [] ==> forall i :: 0 <= i < |r| ==> r[i] == Resolve(domain, m.hrefs[i])
  {
    if m.locs != [] then m.locs
    else seq(|m.hrefs|, i requires 0 <= i < |m.hrefs| => Resolve(domain, m.hrefs[i]))
  }

  /** The entries the cleaning loop skips, tested on the value before it is stripped. */
  predicate Rejected(u: string)
    ensures Rejected(u) <==> Contains(u, "javascript:void(0)") || EndsWith(u, "#") || '?' in u
  {
    ContainsChar(u, '?');
    assert "?" == ['?'];
    Contains(u, "javascript:void(0)") || EndsWith(u, "#") || Contains(u, "?")
  }

  /** What one pass of the cleaning loop appends for entry `u`. */
  function CleanOne(u: string): seq<string> {
    if Rejected(u) then [] else [Strip(u)]
  }

  /** What the cleaning loop appends: the stripped form of every entry not rejected, in order. */
  function Cleaned(urls: seq<string>): seq<string> {
    FlatMap(CleanOne, urls)
  }

  /** One pass of the cleaning loop appends `x` exactly when the entry is not rejected
      and `x` is its stripped form. */
  lemma CleanOneMembers(u: string, x: string)
    ensures x in CleanOne(u) <==> !Rejected(u) && x == Strip(u)
  {
  }

  /** A value is returned by the cleaning exactly when it is the stripped form of an
      entry that is not rejected. */
  lemma CleanedMembers(urls: seq<string>, x: string)
    ensures x in Cleaned(urls) <==>
      exists i :: 0 <= i < |urls| && !Rejected(urls[i]) && x == Strip(urls[i])
  {
    FlatMapMembers(CleanOne, urls, x);
    forall i | 0 <= i < |urls|
      ensures x in CleanOne(urls[i]) <==> !Rejected(urls[i]) && x == Strip(urls[i])
    {
      CleanOneMembers(urls[i], x);
    }
  }

  /** Every value the cleaning returns is already stripped. */
  lemma CleanedStripped(urls: seq<string>, x: string)
    requires x in Cleaned(urls)
    ensures Strip(x) == x
  {
    CleanedMembers(urls, x);
    var i :| 0 <= i < |urls| && !Rejected(urls[i]) && x == Strip(urls[i]);
    StripIdempotent(urls[i]);
  }

  /** The set of page URLs `get_urls_from_source` returns for a sitemap URL and a fetch outcome. */
  function PageUrls(url: string, response: Fetched<PageMatches>): (r: set<string>)
    ensures response.RequestError? ==> r == {}
  {
    match response
    case RequestError => {}
    case Body(m) => set x | x in Cleaned(Candidates(GetDomain(url), m))
  }

  /** The cleaning loop of `get_urls_from_source`: skip rejected entries, append the
      stripped form of the others. */
  method CleanMatches(candidates: seq<string>) returns (filtered: seq<string>)
    ensures filtered == Cleaned(candidates)
  {
    filtered := [];
    var i := 0;
    while i < |candidates|
      invariant 0 <= i <= |candidates|
      invariant filtered == Cleaned(candidates[..i])
    {
      var u := candidates[i];
      FlatMapStep(CleanOne, candidates, i);
      if !Rejected(u) {
        filtered := filtered + [Strip(u)];
      }
      i := i + 1;
    }
    assert candidates[..i] == candidates;
  }

  /** `get_urls_from_source`: clean the candidate list, then `list(set(...))`.
      A request error yields the empty list. */
  method GetUrlsFromSource(url: string, response: Fetched<PageMatches>) returns (urls: seq<string>)
    ensures response.RequestError? ==> urls == []
    ensures Enumerates(urls, PageUrls(url, response))
  {
    if response.RequestError? {
      return [];
    }
    var domain := GetDomain(url);
    var filtered := CleanMatches(Candidates(domain, response.matches));
    urls := Enumerate(set x | x in filtered);
  }

  /** `extract_sitemaps_from_index`: the nested sitemap matches, or nothing on a request error. */
  function ExtractSitemapsFromIndex(response: Fetched<seq<string>>): (r: seq<string>)
    ensures response.RequestError? ==> r == []
    ensures response.Body? ==> r == response.matches
  {
    match response
    case RequestError => []
    case Body(m) => m
  }

  /** A `<loc>` body with no rejected substring and no surrounding whitespace is reported verbatim. */
  lemma LocReported(url: string, m: PageMatches, x: string)
    requires x in m.locs && !Rejected(x) && Strip(x) == x
    ensures x in PageUrls(url, Body(m))
  {
    var i :| 0 <= i < |m.locs| && m.locs[i] == x;
    CleanedMembers(m.locs, x);
  }

  /** On a page without `<loc>` bodies, a resolved href that is not rejected and has no
      surrounding whitespace is reported. */
  lemma HrefReported(url: string, m: PageMatches, h: string)
    requires m.locs == [] && h in m.hrefs
    requires var x := Resolve(GetDomain(url), h); !Rejected(x) && Strip(x) == x
    ensures Resolve(GetDomain(url), h) in PageUrls(url, Body(m))
  {
    var domain := GetDomain(url);
    var x := Resolve(domain, h);
    var i :| 0 <= i < |m.hrefs| && m.hrefs[i] == h;
    assert Candidates(domain, m)[i] == x;
    CleanedMembers(Candidates(domain, m), x);
  }

  /** A link `/rest` on a sitemap page at `scheme://host` followed by a path, with no
      `<loc>` body on the page, puts `scheme://host/rest` among the page URLs (scheme
      lower-cased) when that value is not rejected and has no surrounding whitespace. */
  lemma RelativeLinkReported(scheme: string, host: string, path: string, rest: string, m: PageMatches)
    requires |scheme| > 0 && IsAsciiLetter(scheme[0])
    requires forall k :: 0 <= k < |scheme| ==> IsSchemeChar(scheme[k])
    requires forall k :: 0 <= k < |host| ==> host[k] !in "/?#\t\r\n"
    requires path == [] || path[0] in "/?#"
    requires forall k :: 0 <= k < |path| ==> !IsUnsafe(path[k])
    requires rest == [] || rest[0] != '/'
    requires m.locs == [] && "/" + rest in m.hrefs
    requires var x := Lower(scheme) + "://" + host + "/" + rest; !Rejected(x) && Strip(x) == x
    ensures Lower(scheme) + "://" + host + "/" + rest in PageUrls(scheme + "://" + host + path, Body(m))
  {
    RelativeLinkOnSitemapPage(scheme, host, path, rest);
    HrefReported(scheme + "://" + host + path, m, "/" + rest);
  }

  /** Stripping an entry that is not rejected yields a value without `?` and without
      `javascript:void(0)`: the value is a slice of the entry. */
  lemma StrippedNeverQueried(u: string)
    requires !Rejected(u)
    ensures !Contains(Strip(u), "?") && !Contains(Strip(u), "javascript:void(0)")
  {
    StripContained(u, "?");
    StripContained(u, "javascript:void(0)");
  }

  /** No value the cleaning returns contains `?` or `javascript:void(0)`. */
  lemma CleanedNeverQueried(urls: seq<string>, x: string)
    requires x in Cleaned(urls)
    ensures !Contains(x, "?") && !Contains(x, "javascript:void(0)")
  {
    CleanedMembers(urls, x);
    var i :| 0 <= i < |urls| && !Rejected(urls[i]) && x == Strip(urls[i]);
    StrippedNeverQueried(urls[i]);
  }

  /** No reported page URL contains `?` or `javascript:void(0)`. */
  lemma QueryNeverReported(url: string, response: Fetched<PageMatches>, x: string)
    requires x in PageUrls(url, response)
    ensures !Contains(x, "?") && !Contains(x, "javascript:void(0)")
  {
    var domain := GetDomain(url);
    CleanedNeverQueried(Candidates(domain, response.matches), x);
  }

  /** `n` slashes. */
  function Slashes(n: nat): string {
    seq(n, _ => '/')
  }

  /** `lstrip('/')` removes exactly the leading run of slashes: what it drops is all
      slashes, and what it keeps does not start with one. */
  lemma StripSlashes(n: nat, rest: string)
    requires rest == [] || rest[0] != '/'
    ensures StripLeft(Slashes(n) + rest, IsSlash) == rest
  {
    var s := Slashes(n) + rest;
    var r := StripLeft(s, IsSlash);
    var m := |s| - |r|;
    assert forall k :: 0 <= k < n ==> s[k] == '/';
    assert r != [] ==> r[0] == s[m];
    assert m >= n;
    assert rest != [] ==> s[n] == rest[0];
    assert m <= n;
    assert s[n..] == rest;
  }

  /** A relative href loses all of its leading slashes, not just one, before it is
      appended to the domain. */
  lemma RelativeHrefStripsAllSlashes(domain: string, n: nat, rest: string)
    requires n > 0
    requires rest == [] || rest[0] != '/'
    ensures Resolve(domain, Slashes(n) + rest) == domain + "/" + rest
  {
    var href := Slashes(n) + rest;
    assert href[0] == '/';
    assert !StartsWith(href, "http");
    StripSlashes(n, rest);
  }

  /** A relative href resolved against a page's domain contains that domain, so it passes
      the domain filter whenever the page has the starting sitemap's domain. */
  lemma RelativeHrefInDomain(domain: string, href: string)
    requires !StartsWith(href, "http")
    ensures Contains(Resolve(domain, href), domain)
  {
    assert StartsWith(Resolve(domain, href), domain);
    PrefixContained(Resolve(domain, href), domain);
  }

  /** Stripping `u + "# "` removes only the final space when `u` does not start with whitespace. */
  lemma StripHashSpace(u: string)
    requires u == [] || !IsSpace(u[0])
    ensures Strip(u + "# ") == u + "#"
  {
    var raw := u + "# ";
    assert raw[0] == if u == [] then '#' else u[0];
    assert LeadingRun(raw, IsSpace) == 0;
    assert raw[..|raw| - 1] == u + "#";
    assert TrailingRun(u + "#", IsSpace) == 0;
    assert TrailingRun(raw, IsSpace) == 1;
  }

  /** The `#` test looks at the value before stripping: an entry that ends in `#`
      followed by a space survives, and what is returned for it ends in `#`. */
  lemma HashTestBeforeStrip(u: string)
    requires u == [] || !IsSpace(u[0])
    requires '?' !in u
    requires !Contains(u + "# ", "javascript:void(0)")
    ensures Cleaned([u + "# "]) == [u + "#"]
    ensures EndsWith(Cleaned([u + "# "])[0], "#")
  {
    var raw := u + "# ";
    ContainsChar(raw, '?');
    assert "?" == ['?'];
    assert !Contains(raw, "?");
    assert !EndsWith(raw, "#");
    StripHashSpace(u);
    assert CleanOne(raw) == [u + "#"];
    var raws: seq<string> := [raw];
    assert raws[..0] == [] && raws[0] == raw;
    assert Cleaned(raws) == FlatMap(CleanOne, raws[..0]) + CleanOne(raw);
  }

  /** A link `/rest` on a page fetched from `scheme://host` followed by a path resolves
      to `scheme://host/rest` (with the scheme lower-cased). */
  lemma RelativeLinkOnSitemapPage(scheme: string, host: string, path: string, rest: string)
    requires |scheme| > 0 && IsAsciiLetter(scheme[0])
    requires forall k :: 0 <= k < |scheme| ==> IsSchemeChar(scheme[k])
    requires forall k :: 0 <= k < |host| ==> host[k] !in "/?#\t\r\n"
    requires path == [] || path[0] in "/?#"
    requires forall k :: 0 <= k < |path| ==> !IsUnsafe(path[k])
    requires rest == [] || rest[0] != '/'
    ensures Resolve(GetDomain(scheme + "://" + host + path), "/" + rest)
      == Lower(scheme) + "://" + host + "/" + rest
  {
    DomainOfAbsoluteUrl(scheme, host, path);
    assert Slashes(1) + rest == "/" + rest;
    RelativeHrefStripsAllSlashes(Lower(scheme) + "://" + host, 1, rest);
  }
}
