/** The request-level pieces around one crawl: the name of a domain's results
    file, the crawl that writes it, the download that looks it up, and the
    pre-flight normalisation and validation of a batch of domains. The file
    system is a map from file name to contents; reachability probes are a
    function from URL to the outcome of a HEAD request. */
module Service {
  import opened Text
  import opened Seqs
  import opened Urls
  import opened LinkFilter
  import opened Crawler

  /** The chunk size a crawl started by the service runs with. */
  const DefaultChunkSize := 500

  type Files = map<string, string>

  /** The domain with every `https://` and then every `http://` removed. */
  function StripSchemes(domain: string): string
  {
    Replace(Replace(domain, "https://", ""), "http://", "")
  }

  /** The stem of the results file: the second `.`-separated label of the
      scheme-less domain, or all of it when it holds no `.`. */
  function Stem(domain: string): string
  {
    var part := StripSchemes(domain);
    var labels := Split(part, '.');
    if |labels| >= 2 then labels[1] else part
  }

  /** The results file of a domain, relative to the output directory. */
  function ResultsFile(domain: string): string
  {
    Stem(domain) + ".txt"
  }

  /** `r` is the label right after the first `.` of `s`: it is followed by
      the end of `s` or by another `.`. */
  ghost predicate IsSecondLabel(s: string, r: string) {
    exists i :: 0 <= i < |s| && s[i] == '.' && '.' !in s[..i]
      && i + 1 + |r| <= |s| && s[i + 1..i + 1 + |r|] == r
      && (i + 1 + |r| == |s| || s[i + 1 + |r|] == '.')
  }

  /** The stem never holds a `.`; it is the second label when the
      scheme-less domain has one, and the whole scheme-less domain otherwise. */
  lemma StemSpec(domain: string)
    ensures '.' !in Stem(domain)
    ensures '.' !in StripSchemes(domain) ==> Stem(domain) == StripSchemes(domain)
    ensures '.' in StripSchemes(domain) ==> IsSecondLabel(StripSchemes(domain), Stem(domain))
  {
    var part := StripSchemes(domain);
    var labels := Split(part, '.');
    JoinSplit(part, '.');
    if |labels| == 1 {
      assert part == labels[0];
    } else {
      var i := |labels[0]|;
      var rest := labels[1..];
      var r := labels[1];
      assert part == labels[0] + ['.'] + Join(rest, '.');
      assert part[..i] == labels[0];
      assert part[i] == '.';
      if |rest| == 1 {
        assert Join(rest, '.') == r;
        assert part[i + 1..i + 1 + |r|] == r;
      } else {
        assert Join(rest, '.') == r + ['.'] + Join(rest[1..], '.');
        assert part[i + 1..i + 1 + |r|] == r;
        assert part[i + 1 + |r|] == '.';
      }
      assert IsSecondLabel(part, r);
    }
  }

  /** The converse of `StemSpec`: whenever the scheme-less domain is a
      `.`-free label, a `.`, a `.`-free label `b` and then nothing or a `.`
      and more, the stem is `b`. So `https://www.example.com` and
      `https://www.example.org` share the results file `example.txt`. The
      service only crawls the normalised form `https://www.example.com` of a
      requested `example.com`, which lands in `example.txt`, while a download
      requested as `example.com` looks up its top-level label (`com.txt`) and
      answers 404 unless some other crawl wrote that file. */
  lemma StemOfLabels(domain: string, a: string, b: string, rest: string)
    requires StripSchemes(domain) == a + ['.'] + b + rest
    requires '.' !in a && '.' !in b && (rest == [] || rest[0] == '.')
    ensures Stem(domain) == b
  {
    SecondLabel(StripSchemes(domain), a, b, rest);
  }

  /** The second `.`-separated part of `a.b` followed by nothing or by `.` and more is `b`. */
  lemma SecondLabel(part: string, a: string, b: string, rest: string)
    requires part == a + ['.'] + b + rest
    requires '.' !in a && '.' !in b && (rest == [] || rest[0] == '.')
    ensures |Split(part, '.')| >= 2 && Split(part, '.')[1] == b
  {
    SplitAfterPlain(a, b + rest, '.');
    assert part == a + ['.'] + (b + rest);
    if rest == [] {
      assert b + rest == b;
      SplitPlain(b, '.');
    } else {
      SplitAfterPlain(b, rest[1..], '.');
      assert b + rest == b + ['.'] + rest[1..];
    }
  }

  /** `crawl_domain_headless`: truncates the domain's results file and runs
      the crawl with the default chunk size; the file ends up holding every
      discovered URL once, root first, in discovery order. */
  method CrawlDomain(lib: UrlLib, web: Web, files: Files, domain: string)
    returns (files': Files, total: int, lines: seq<string>)
    ensures files' == files[ResultsFile(domain) := Serialize(lines)]
    ensures total == |lines| && |lines| >= 1 && lines[0] == domain && NoDup(lines)
    ensures Closed(SiteFilter(lib, DomainNetloc(lib, domain)), web, lines)
    ensures Justified(SiteFilter(lib, DomainNetloc(lib, domain)), web, lines)
  {
    var name := ResultsFile(domain);
    files' := files[name := ""];
    ghost var fetched: seq<string>;
    total, lines, fetched := ExtractProductUrls(lib, web, domain, DefaultChunkSize);
    files' := files'[name := Serialize(lines)];
  }

  datatype Download = Found(name: string, contents: string) | NotFound(status: int)

  /** `download_results`: the domain's results file when it exists, a 404
      otherwise. */
  function DownloadResults(files: Files, domain: string): (r: Download)
    ensures r.Found? <==> ResultsFile(domain) in files
    ensures r.Found? ==> r.name == ResultsFile(domain) && r.contents == files[r.name]
    ensures r.NotFound? ==> r.status == 404
  {
    var name := ResultsFile(domain);
    if name in files then Found(name, files[name]) else NotFound(404)
  }

  /** The download endpoint finds what a crawl of the same domain string
      wrote, whatever other files exist. */
  lemma DownloadAfterCrawl(files: Files, domain: string, text: string)
    ensures DownloadResults(files[ResultsFile(domain) := text], domain) == Found(ResultsFile(domain), text)
  {
  }

  /** `ensure_protocol_and_www`: `https://` is put in front of a URL that
      parses without a scheme, and `www.` in front of a netloc lacking it. */
  function EnsureProtocolAndWww(lib: UrlLib, url: string): string
  {
    var p := WithScheme(lib, url);
    Unparse(p.(netloc := WithWww(p.netloc)))
  }

  /** The parse the function works on: the URL's own, or that of the URL
      with `https://` prepended when the first parse found no scheme. */
  function WithScheme(lib: UrlLib, url: string): Url
  {
    var p := lib.parse(url);
    if p.scheme == "" then lib.parse("https://" + url) else p
  }

  function WithWww(netloc: string): (r: string)
  {
    if StartsWith(netloc, "www.") then netloc else "www." + netloc
  }

  /** The netloc always ends up starting with `www.` and is written right after
      the scheme; a netloc that already starts with `www.` is kept as is; the
      scheme is the URL's own when it has one, and `https` when the prefixed
      URL parses as such. */
  lemma EnsureProtocolAndWwwSpec(lib: UrlLib, url: string)
    ensures var p := WithScheme(lib, url);
      var r := EnsureProtocolAndWww(lib, url);
      && StartsWith(WithWww(p.netloc), "www.")
      && (StartsWith(p.netloc, "www.") ==> WithWww(p.netloc) == p.netloc)
      && StartsWith(r, (if p.scheme != "" then p.scheme + ":" else "") + "//" + WithWww(p.netloc))
    ensures lib.parse(url).scheme != "" ==> WithScheme(lib, url) == lib.parse(url)
    ensures lib.parse(url).scheme == "" && lib.parse("https://" + url).scheme == "https" ==>
      StartsWith(EnsureProtocolAndWww(lib, url), "https://www.")
  {
    var p := WithScheme(lib, url);
    var n := WithWww(p.netloc);
    UnparseWithNetloc(p.(netloc := n));
    assert "www." <= n;
    if p.scheme == "https" {
      assert "https://www." <= "https" + ":" + "//" + n;
    }
  }

  /** `ensure_protocol_and_www` is idempotent on the netloc: a netloc it
      produced keeps its `www.`. */
  lemma WithWwwIdempotent(netloc: string)
    ensures WithWww(WithWww(netloc)) == WithWww(netloc)
  {
    assert StartsWith(WithWww(netloc), "www.");
  }

  datatype Validation = Passed(domains: seq<string>) | Failed(status: int, urls: seq<string>)

  /** The outcome of a HEAD request: a response status, or an exception. */
  datatype Probe = Status(code: int) | Raised

  /** A HEAD request that returned a status below 400. */
  predicate Reachable(probe: string -> Probe, url: string) {
    probe(url).Status? && probe(url).code < 400
  }

  /** The normalised URLs of a batch, in request order. */
  function Normalized(lib: UrlLib, domains: seq<string>): (r: seq<string>)
    ensures |r| == |domains|
    ensures forall i :: 0 <= i < |domains| ==> r[i] == EnsureProtocolAndWww(lib, domains[i])
  {
    if domains == [] then [] else [EnsureProtocolAndWww(lib, domains[0])] + Normalized(lib, domains[1..])
  }

  /** The normalised URLs that failed their probe, in request order. */
  function Unreachable(probe: string -> Probe, urls: seq<string>): (r: seq<string>)
  {
    if urls == [] then []
    else (if Reachable(probe, urls[0]) then [] else [urls[0]]) + Unreachable(probe, urls[1..])
  }

  /** `validate_domains`: every domain is normalised and probed; the batch is
      accepted only when every probe succeeds, and otherwise rejected with a
      400 listing the failures. */
  function ValidateDomains(lib: UrlLib, probe: string -> Probe, domains: seq<string>): Validation
  {
    var urls := Normalized(lib, domains);
    var bad := Unreachable(probe, urls);
    if bad == [] then Passed(urls) else Failed(400, bad)
  }

  /** The failures are exactly the normalised URLs whose probe failed. */
  lemma {:induction false} UnreachableSpec(probe: string -> Probe, urls: seq<string>)
    ensures forall u :: u in Unreachable(probe, urls) <==> u in urls && !Reachable(probe, u)
  {
    if urls != [] {
      UnreachableSpec(probe, urls[1..]);
      assert forall u :: u in urls <==> u == urls[0] || u in urls[1..];
    }
  }

  /** All or nothing: the batch is accepted exactly when every normalised
      URL is reachable, and then the normalised URLs are returned in request
      order; a rejection carries status 400 and names exactly the normalised
      URLs that are not reachable. */
  lemma ValidateDomainsSpec(lib: UrlLib, probe: string -> Probe, domains: seq<string>)
    ensures var v := ValidateDomains(lib, probe, domains);
      && (v.Passed? <==> forall i :: 0 <= i < |domains| ==> Reachable(probe, EnsureProtocolAndWww(lib, domains[i])))
      && (v.Passed? ==> v.domains == Normalized(lib, domains))
      && (v.Failed? ==> v.status == 400 && v.urls != [])
      && (v.Failed? ==> forall u :: u in v.urls <==> u in Normalized(lib, domains) && !Reachable(probe, u))
  {
    var urls := Normalized(lib, domains);
    UnreachableSpec(probe, urls);
    var bad := Unreachable(probe, urls);
    if bad == [] {
      forall i | 0 <= i < |domains| ensures Reachable(probe, EnsureProtocolAndWww(lib, domains[i])) {
        assert urls[i] in urls;
      }
    } else {
      assert bad[0] in bad;
      var i :| 0 <= i < |urls| && urls[i] == bad[0];
      assert !Reachable(probe, EnsureProtocolAndWww(lib, domains[i]));
    }
  }
}
