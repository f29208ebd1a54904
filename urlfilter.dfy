/** The origin of a URL (`get_domain`) and the two filters a flush applies before
    writing: `filter_urls_by_domain` and `filter_in_files`. */
module UrlFilter {
  import opened Text
  import opened Collections

  /** Index of the first character of `s` that belongs to `cs`, or `|s|` when there is none. */
  function FindAny(s: string, cs: string): (i: nat)
    ensures i <= |s|
    ensures i < |s| ==> s[i] in cs
    ensures forall k :: 0 <= k < i ==> s[k] !in cs
  {
    if s == [] || s[0] in cs then 0 else 1 + FindAny(s[1..], cs)
  }

  predicate IsAsciiLetter(c: char) {
    'a' <= c <= 'z' || 'A' <= c <= 'Z'
  }

  /** The characters `urlsplit` accepts in a scheme. */
  predicate IsSchemeChar(c: char) {
    IsAsciiLetter(c) || '0' <= c <= '9' || c == '+' || c == '-' || c == '.'
  }

  /** The C0 control characters and space, removed from the front of a URL before it is split. */
  predicate IsControlOrSpace(c: char) {
    c <= ' '
  }

  /** Tab, carriage return and line feed, removed from anywhere in a URL before it is split. */
  predicate IsUnsafe(c: char) {
    c == '\t' || c == '\r' || c == '\n'
  }

  /** The characters a URL keeps when it is split. */
  predicate IsSafe(c: char) {
    !IsUnsafe(c)
  }

  /** The text before the first `:` is the scheme (lower-cased) when it is a letter followed
      by scheme characters; otherwise there is no scheme. Returns the scheme and the rest. */
  function SplitScheme(u: string): (string, string) {
    var i := FindAny(u, ":");
    if 0 < i < |u| && IsAsciiLetter(u[0]) && forall k :: 0 <= k < i ==> IsSchemeChar(u[k])
    then (Lower(u[..i]), u[i + 1..])
    else ("", u)
  }

  /** `s` holds none of the characters that end a network location. */
  predicate NoSeparator(s: string) {
    forall k :: 0 <= k < |s| ==> s[k] !in "/?#"
  }

  /** After the scheme, a `//` introduces the network location, which runs to the first
      `/`, `?` or `#`; without `//` the network location is empty. */
  function Netloc(rest: string): (host: string)
    ensures NoSeparator(host)
  {
    if StartsWith(rest, "//") then
      var t := rest[2..];
      t[..FindAny(t, "/?#")]
    else ""
  }

  /** `get_domain`: `f"{scheme}://{netloc}"` of `urlparse(url)`. */
  function GetDomain(url: string): string {
    var u := Filter(IsSafe, StripLeft(url, IsControlOrSpace));
    var (scheme, rest) := SplitScheme(u);
    scheme + "://" + Netloc(rest)
  }

  /** Every domain has the form `scheme://host`: its first `:` opens the `://`, and what
      follows holds no `/`, `?` or `#` (searching it for one runs to its end). */
  lemma DomainShape(url: string)
    ensures var r := GetDomain(url); var i := FindAny(r, ":");
      i + 3 <= |r| && r[i..i + 3] == "://" && FindAny(r[i + 3..], "/?#") == |r| - (i + 3)
  {
    var u := Filter(IsSafe, StripLeft(url, IsControlOrSpace));
    var (scheme, rest) := SplitScheme(u);
    SchemeHasNoColon(u);
    DomainSplitsAtColon(scheme, Netloc(rest));
  }

  /** A scheme split off by `SplitScheme` holds no `:`. */
  lemma SchemeHasNoColon(u: string)
    ensures ':' !in SplitScheme(u).0
  {
    var i := FindAny(u, ":");
    if 0 < i < |u| && IsAsciiLetter(u[0]) && forall k :: 0 <= k < i ==> IsSchemeChar(u[k]) {
      var l := Lower(u[..i]);
      assert forall k :: 0 <= k < |l| ==> l[k] != ':';
    }
  }

  /** `scheme://host` splits at the end of the scheme when the scheme holds no `:`. */
  lemma DomainSplitsAtColon(scheme: string, host: string)
    requires ':' !in scheme
    requires NoSeparator(host)
    ensures var r, i := scheme + "://" + host, |scheme|;
      FindAny(r, ":") == i && r[i..i + 3] == "://" && FindAny(r[i + 3..], "/?#") == |host|
  {
    var r := scheme + "://" + host;
    assert forall k :: 0 <= k < |scheme| ==> r[k] == scheme[k];
    assert r[|scheme|] == ':';
    FindAnyIsFirst(r, ":", |scheme|);
    assert r[|scheme| + 3..] == host;
    FindAnyNone(host, "/?#");
  }

  /** `FindAny` runs to the end of a string that holds no character of `cs`. */
  lemma FindAnyNone(s: string, cs: string)
    requires forall k :: 0 <= k < |s| ==> s[k] !in cs
    ensures FindAny(s, cs) == |s|
  {
  }

  /** The first index holding a character of `cs` is `FindAny`'s result. */
  lemma FindAnyIsFirst(s: string, cs: string, i: nat)
    requires i < |s| && s[i] in cs
    requires forall k :: 0 <= k < i ==> s[k] !in cs
    ensures FindAny(s, cs) == i
  {
    var j := FindAny(s, cs);
    assert !(j < i);
  }

  /** Normalisation leaves a URL alone when it starts with a letter and holds no tab,
      carriage return or line feed. */
  lemma NormalisedUnchanged(url: string)
    requires |url| > 0 && IsAsciiLetter(url[0])
    requires forall k :: 0 <= k < |url| ==> !IsUnsafe(url[k])
    ensures Filter(IsSafe, StripLeft(url, IsControlOrSpace)) == url
  {
    assert StripLeft(url, IsControlOrSpace) == url;
    FilterKeepsAll(IsSafe, url);
  }

  /** A well-formed scheme is split off at its colon and lower-cased. */
  lemma SchemeSplit(scheme: string, rest: string)
    requires |scheme| > 0 && IsAsciiLetter(scheme[0])
    requires forall k :: 0 <= k < |scheme| ==> IsSchemeChar(scheme[k])
    ensures SplitScheme(scheme + ":" + rest) == (Lower(scheme), rest)
  {
    var u := scheme + ":" + rest;
    var i := FindAny(u, ":");
    assert u[|scheme|] == ':';
    assert forall k :: 0 <= k < |scheme| ==> u[k] == scheme[k] && u[k] != ':';
    assert i == |scheme|;
    assert u[..i] == scheme;
    assert u[i + 1..] == rest;
  }

  /** The network location after `//` is the host, up to the path, query or fragment. */
  lemma NetlocIsHost(host: string, path: string)
    requires forall k :: 0 <= k < |host| ==> host[k] !in "/?#"
    requires path == [] || path[0] in "/?#"
    ensures Netloc("//" + host + path) == host
  {
    var rest := "//" + host + path;
    assert StartsWith(rest, "//");
    var t := rest[2..];
    assert t == host + path;
    assert forall k :: 0 <= k < |host| ==> t[k] == host[k];
    if path != [] {
      assert t[|host|] == path[0];
    }
    assert FindAny(t, "/?#") == |host|;
    assert t[..|host|] == host;
  }

  /** For an absolute URL `scheme://host` followed by a path, query or fragment, the
      domain is the lower-cased scheme, `://` and the host, with the rest cut off. */
  lemma DomainOfAbsoluteUrl(scheme: string, host: string, path: string)
    requires |scheme| > 0 && IsAsciiLetter(scheme[0])
    requires forall k :: 0 <= k < |scheme| ==> IsSchemeChar(scheme[k])
    requires forall k :: 0 <= k < |host| ==> host[k] !in "/?#\t\r\n"
    requires path == [] || path[0] in "/?#"
    requires forall k :: 0 <= k < |path| ==> !IsUnsafe(path[k])
    ensures GetDomain(scheme + "://" + host + path) == Lower(scheme) + "://" + host
  {
    var url := scheme + "://" + host + path;
    var rest := "//" + host + path;
    assert url == scheme + ":" + rest;
    forall k | 0 <= k < |url| ensures !IsUnsafe(url[k]) {
      if k < |scheme| {
        assert url[k] == scheme[k];
      } else if k < |scheme| + 3 {
      } else if k < |scheme| + 3 + |host| {
        assert url[k] == host[k - |scheme| - 3];
      } else {
        assert url[k] == path[k - |scheme| - 3 - |host|];
      }
    }
    NormalisedUnchanged(url);
    SchemeSplit(scheme, rest);
    NetlocIsHost(host, path);
  }

  /** `filter_urls_by_domain`: keeps, in order, the URLs that contain `domain` as a substring. */
  function FilterUrlsByDomain(domain: string, urls: seq<string>): (r: seq<string>)
    ensures forall u :: u in r <==> u in urls && Contains(u, domain)
    ensures NoDup(urls) ==> NoDup(r)
  {
    FilterNoDup(u => Contains(u, domain), urls);
    Filter(u => Contains(u, domain), urls)
  }

  /** The suffixes `filter_in_files` accepts; the last one is the empty string. */
  const IncludeExtensions: seq<string> :=
    [".asp", ".aspx", ".cgi", ".htm", ".html", ".js", ".jsp", ".php", ".py", ""]

  /** The suffix `filter_in_files` rejects: `('.xml')` is a parenthesised string, not a tuple. */
  const ExcludeExtension: string := ".xml"

  /** `s.endswith(suffixes)` for a tuple of suffixes. */
  predicate EndsWithAny(s: string, suffixes: seq<string>) {
    exists k :: 0 <= k < |suffixes| && EndsWith(s, suffixes[k])
  }

  /** The condition of the comprehension in `filter_in_files`. Because the inclusion list
      contains the empty suffix, the inclusion test always succeeds and only the `.xml`
      exclusion decides. */
  predicate PassesFileFilter(url: string)
    ensures PassesFileFilter(url) <==> !EndsWith(Lower(url), ".xml")
  {
    assert EndsWith(Lower(url), IncludeExtensions[9]);
    EndsWithAny(Lower(url), IncludeExtensions) && !EndsWith(Lower(url), ExcludeExtension)
  }

  /** `Lower(url)` ends in `.xml` exactly when `url` ends in a dot and the letters x, m, l
      in any case. */
  lemma XmlSuffixAnyCase(url: string)
    ensures EndsWith(Lower(url), ".xml") <==>
      |url| >= 4 && url[|url| - 4] == '.' && url[|url| - 3] in "xX"
      && url[|url| - 2] in "mM" && url[|url| - 1] in "lL"
  {
    var n := |url|;
    if n >= 4 {
      var l := Lower(url);
      assert l[n - 4..] == [l[n - 4], l[n - 3], l[n - 2], l[n - 1]];
    }
  }

  /** `filter_in_files`: keeps, in order, the URLs whose lower-cased form does not end in `.xml`. */
  function FilterInFiles(urls: seq<string>): (r: seq<string>)
    ensures forall u :: u in r <==> u in urls && !EndsWith(Lower(u), ".xml")
    ensures NoDup(urls) ==> NoDup(r)
  {
    FilterNoDup(PassesFileFilter, urls);
    Filter(PassesFileFilter, urls)
  }

  /** What a flush writes: a URL survives both filters. */
  predicate Kept(domain: string, url: string) {
    Contains(url, domain) && !EndsWith(Lower(url), ".xml")
  }

  /** `filter_in_files(filter_urls_by_domain(domain, urls))`, the expression every flush applies. */
  function FilterForOutput(domain: string, urls: seq<string>): (r: seq<string>)
    ensures forall u :: u in r <==> u in urls && Kept(domain, u)
    ensures NoDup(urls) ==> NoDup(r)
  {
    FilterInFiles(FilterUrlsByDomain(domain, urls))
  }

  lemma {:induction false} DomainFilterIdempotent(domain: string, urls: seq<string>)
    ensures FilterUrlsByDomain(domain, FilterUrlsByDomain(domain, urls)) == FilterUrlsByDomain(domain, urls)
  {
    FilterIdempotent(u => Contains(u, domain), urls);
  }

  lemma {:induction false} FileFilterIdempotent(urls: seq<string>)
    ensures FilterInFiles(FilterInFiles(urls)) == FilterInFiles(urls)
  {
    FilterIdempotent(PassesFileFilter, urls);
  }

  /** The two filters commute, so filtering output again removes nothing. */
  lemma {:induction false} OutputFilterIdempotent(domain: string, urls: seq<string>)
    ensures FilterForOutput(domain, FilterForOutput(domain, urls)) == FilterForOutput(domain, urls)
  {
    var d := FilterUrlsByDomain(domain, urls);
    FilterCommute(u => Contains(u, domain), PassesFileFilter, d);
    DomainFilterIdempotent(domain, urls);
    FileFilterIdempotent(FilterUrlsByDomain(domain, d));
  }

  /** Both filters preserve order: each part of a list is filtered in place. */
  lemma {:induction false} FiltersPreserveOrder(domain: string, a: seq<string>, b: seq<string>)
    ensures FilterUrlsByDomain(domain, a + b) == FilterUrlsByDomain(domain, a) + FilterUrlsByDomain(domain, b)
    ensures FilterInFiles(a + b) == FilterInFiles(a) + FilterInFiles(b)
  {
    FilterConcat(u => Contains(u, domain), a, b);
    FilterConcat(PassesFileFilter, a, b);
  }
}
