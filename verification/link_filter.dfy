/** The per-link filter and canonicaliser of the crawl loop: a raw `href` found
    on the page at `base` becomes either a normalised absolute URL or a
    rejection, checked in the order the loop checks it. */
module LinkFilter {
  import opened Text
  import opened Urls

  /** The words whose (case-insensitive) occurrence anywhere in a path rejects it. */
  const ExcludedWords: seq<string> := ["chat", "contact", "reward", "profile", "club",
    "write-to-us", "return", "payment", "help", "service", "user-agreement", "policies",
    "aboutus", "history", "blog", "account", "wishlist", "viewcart", "login", "logout"]

  /** File extensions (compared on the lower-cased path) that are never crawled. */
  const ExcludedExtensions: seq<string> := [".jpg", ".jpeg", ".png", ".gif", ".bmp",
    ".svg", ".webp", ".ico", ".pdf", ".docx"]

  datatype Reason = ScriptLink | NotHttp | OffDomain | SkippedExtension | HasFragment | ExcludedPath

  datatype Verdict = Accepted(url: string) | Rejected(reason: Reason)

  /** `exclude_pattern.search(path)` with `re.IGNORECASE`: some excluded word
      occurs in the path. */
  predicate MatchesExcluded(path: string) {
    exists i | 0 <= i < |ExcludedWords| :: Contains(Lower(path), ExcludedWords[i])
  }

  /** The host identity a crawl is confined to: the netloc of the root URL
      with every `www.` removed. */
  function DomainNetloc(lib: UrlLib, domain: string): string
  {
    Replace(lib.parse(domain).netloc, "www.", "")
  }

  /** `urljoin(base, href)`, then one trailing `:` dropped. */
  function Resolve(lib: UrlLib, base: string, href: string): (r: string)
    ensures EndsWith(lib.join(base, href), ":") ==> r + ":" == lib.join(base, href)
    ensures !EndsWith(lib.join(base, href), ":") ==> r == lib.join(base, href)
  {
    var joined := lib.join(base, href);
    if EndsWith(joined, ":") then joined[..|joined| - 1] else joined
  }

  /** The serialisation of `p` with its query normalised, trailing slashes dropped. */
  function Rebuild(lib: UrlLib, p: Url): string
  {
    RStrip(Unparse(p.(query := NormalizeQuery(lib, p.query))), IsSlash)
  }

  /** The filter applied to one raw `href` found on the page at `base`, for a
      crawl confined to `netloc` (see `DomainNetloc`). */
  function Canonicalize(lib: UrlLib, netloc: string, base: string, rawHref: string): Verdict
  {
    Classify(lib, netloc, base, Strip(rawHref))
  }

  /** The checks of the filter on an already stripped href, in source order. */
  function Classify(lib: UrlLib, netloc: string, base: string, href: string): Verdict
  {
    if StartsWith(Lower(href), "javascript:") then Rejected(ScriptLink)
    else
      var p := lib.parse(Resolve(lib, base, href));
      if p.scheme != "http" && p.scheme != "https" then Rejected(NotHttp)
      else if !Contains(Replace(p.netloc, "www.", ""), netloc) then Rejected(OffDomain)
      else if EndsWithAny(Lower(p.path), ExcludedExtensions) then Rejected(SkippedExtension)
      else if '#' in Unparse(p) then Rejected(HasFragment)
      else if MatchesExcluded(p.path) then Rejected(ExcludedPath)
      else Accepted(Rebuild(lib, p))
  }

  /** What every accepted link satisfies, and that these conditions are also
      enough for acceptance: no script pseudo-link, an http(s) scheme, the
      crawl's host inside the link's `www.`-free host, no excluded extension,
      no `#` and no excluded word; the result then holds no `#` and does not
      end in `/`. */
  lemma AcceptedLink(lib: UrlLib, netloc: string, base: string, rawHref: string)
    ensures var href := Strip(rawHref);
      var p := lib.parse(Resolve(lib, base, href));
      var v := Canonicalize(lib, netloc, base, rawHref);
      && (v.Accepted? <==>
           && !StartsWith(Lower(href), "javascript:")
           && (p.scheme == "http" || p.scheme == "https")
           && Contains(Replace(p.netloc, "www.", ""), netloc)
           && !EndsWithAny(Lower(p.path), ExcludedExtensions)
           && '#' !in Unparse(p)
           && !MatchesExcluded(p.path))
      && (v.Accepted? ==>
           && v.url == Rebuild(lib, p)
           && '#' !in v.url
           && (v.url == [] || v.url[|v.url| - 1] != '/'))
  {
    var href := Strip(rawHref);
    var p := lib.parse(Resolve(lib, base, href));
    if '#' !in Unparse(p) {
      RebuildShape(lib, p);
    }
  }

  /** Rebuilding a URL whose serialisation has no `#` gives a string with no
      `#` that does not end in `/`. */
  lemma RebuildShape(lib: UrlLib, p: Url)
    requires '#' !in Unparse(p)
    ensures '#' !in Rebuild(lib, p)
    ensures Rebuild(lib, p) == [] || Rebuild(lib, p)[|Rebuild(lib, p)| - 1] != '/'
  {
    var q := NormalizeQuery(lib, p.query);
    NormalizedQueryChars(lib, p.query);
    ReplacedQueryHasNoMarker(p, q);
    var full := Unparse(p.(query := q));
    PrefixLacks(RStrip(full, IsSlash), full, '#');
  }

  lemma PrefixLacks(r: string, full: string, c: char)
    requires r <= full && c !in full
    ensures c !in r
  {
  }

  /** The filter reads only the stripped href: an href and its stripped
      form get the same verdict. */
  lemma WhitespaceInsensitive(lib: UrlLib, netloc: string, base: string, href: string)
    ensures Canonicalize(lib, netloc, base, Strip(href)) == Canonicalize(lib, netloc, base, href)
  {
    StripIdempotent(href);
  }
}
