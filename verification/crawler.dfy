/** The breadth-first crawl of one domain: a FIFO frontier, the `discovered`
    and `visited` sets, the discovery counter, and a chunked writer that
    appends newly discovered URLs to the output file.

    Rendering a page and extracting its anchors are given as a finite map
    `web`: a URL in the map renders, and its value lists the raw `href`s of
    the page's anchors in document order; a URL outside the map is a fetch
    that produced no HTML. */
module Crawler {
  import opened Text
  import opened Seqs
  import opened Urls
  import opened LinkFilter

  type Web = map<string, seq<string>>

  /** The largest buffer a chunk size allows between discovery steps. A
      chunk size below 1 makes every discovery flush at once. */
  function Cap(chunkSize: int): int { if chunkSize >= 1 then chunkSize else 1 }

  /** A link filter: the verdict on a raw href found on the page at a base URL. */
  type Filter = (string, string) -> Verdict

  /** The filter of a crawl confined to `netloc`: `Canonicalize`. */
  function SiteFilter(lib: UrlLib, netloc: string): Filter
  {
    (base, href) => Canonicalize(lib, netloc, base, href)
  }

  /** The filter's verdict on each href of the page at `base`, in page order. */
  function Verdicts(filter: Filter, base: string, hrefs: seq<string>): (r: seq<Verdict>)
    ensures |r| == |hrefs|
    ensures forall i :: 0 <= i < |hrefs| ==> r[i] == filter(base, hrefs[i])
  {
    seq(|hrefs|, i requires 0 <= i < |hrefs| => filter(base, hrefs[i]))
  }

  /** The URLs of the accepted verdicts, in order, each as often as it occurs. */
  function Kept(vs: seq<Verdict>): seq<string>
  {
    if vs == [] then []
    else Kept(DropLast(vs)) + (if Last(vs).Accepted? then [Last(vs).url] else [])
  }

  /** The accepted links of the page at `u`; none when its fetch fails. */
  function PageLinks(filter: Filter, web: Web, u: string): seq<string>
  {
    if u in web then Kept(Verdicts(filter, u, web[u])) else []
  }

  /** A URL is kept exactly when some verdict accepts it. */
  lemma {:induction false} KeptSpec(vs: seq<Verdict>)
    ensures forall v :: v in Kept(vs) <==> exists i :: 0 <= i < |vs| && vs[i] == Accepted(v)
  {
    if vs != [] {
      var init := DropLast(vs);
      KeptSpec(init);
      forall v ensures v in Kept(vs) <==> exists i :: 0 <= i < |vs| && vs[i] == Accepted(v) {
        if v in Kept(init) {
          var i :| 0 <= i < |init| && init[i] == Accepted(v);
          assert vs[i] == init[i];
        }
        if exists i :: 0 <= i < |vs| && vs[i] == Accepted(v) {
          var i :| 0 <= i < |vs| && vs[i] == Accepted(v);
          if i < |init| {
            assert init[i] == vs[i];
          }
        }
      }
    }
  }

  /** The links of a page are exactly the URLs the filter produces from
      its hrefs, and a page that fails to render has none. */
  lemma PageLinksSpec(filter: Filter, web: Web, u: string)
    ensures forall v :: v in PageLinks(filter, web, u) <==>
      u in web && exists i :: 0 <= i < |web[u]| && filter(u, web[u][i]) == Accepted(v)
  {
    if u in web {
      var vs := Verdicts(filter, u, web[u]);
      KeptSpec(vs);
      forall v ensures v in Kept(vs) <==> exists i :: 0 <= i < |web[u]| && filter(u, web[u][i]) == Accepted(v) {
        if exists i :: 0 <= i < |web[u]| && filter(u, web[u][i]) == Accepted(v) {
          var i :| 0 <= i < |web[u]| && filter(u, web[u][i]) == Accepted(v);
          assert vs[i] == Accepted(v);
        }
      }
    }
  }

  /** The page at `u` has a link that the filter turns into `v`. */
  predicate LinksTo(filter: Filter, web: Web, u: string, v: string) {
    v in PageLinks(filter, web, u)
  }

  /** Every URL of `order` after the first is linked from an earlier one. */
  ghost predicate Justified(filter: Filter, web: Web, order: seq<string>) {
    forall i :: 0 < i < |order| ==> HasParent(filter, web, order, i)
  }

  /** Some URL before position `i` links to the URL at `i`. */
  ghost predicate HasParent(filter: Filter, web: Web, order: seq<string>, i: nat)
    requires i < |order|
  {
    exists j :: 0 <= j < i && LinksTo(filter, web, order[j], order[i])
  }

  /** Every link of every page in `order` leads back into `order`. */
  ghost predicate Closed(filter: Filter, web: Web, order: seq<string>) {
    forall u, v :: u in order && LinksTo(filter, web, u, v) ==> v in order
  }

  /** Every URL a crawl from `domain` can ever hold: the root and the links
      of the pages that render. A finite set, which bounds the crawl. */
  ghost function Universe(filter: Filter, web: Web, domain: string): set<string>
  {
    {domain} + set u, v | u in web && v in PageLinks(filter, web, u) :: v
  }

  /** The state of one crawl. The output file is kept as its lines, one URL
      each (`Serialize` gives its text); `Order()` adds the buffered chunk and
      is the order in which URLs were discovered. */
  class Crawl {
    const lib: UrlLib
    const domain: string
    const domainNetloc: string
    const filter: Filter
    const chunkSize: int
    var queue: seq<string>
    var discovered: set<string>
    var visited: set<string>
    var chunk: seq<string>
    var lines: seq<string>
    var totalCount: int

    ghost function Order(): seq<string>
      reads this
    {
      lines + chunk
    }

    /** The invariant of the crawl state except the buffer bound: the file
        and then the buffer hold the discovery order, which has no
        repetition, starts at the root and is what `discovered` and
        `totalCount` count; the queue is the not yet fetched tail of the
        discovery order and `visited` is the fetched head. */
    ghost predicate Core()
      reads this
    {
      && lines != [] && lines[0] == domain
      && NoDup(Order())
      && (forall x :: x in discovered <==> x in Order())
      && totalCount == |Order()| == |discovered|
      && |queue| <= |Order()|
      && queue == Order()[|Order()| - |queue|..]
      && (forall x :: x in visited <==> x in Order()[..|Order()| - |queue|])
    }

    ghost predicate Valid()
      reads this
    {
      Core() && |chunk| < Cap(chunkSize)
    }

    /** The flushing discipline: with a chunk size of at least one, the
        buffer holds the URLs discovered after the root since it last
        reached `chunkSize` URLs, `(|discovered| - 1) % chunkSize` of them
        (see `StateFacts`). */
    ghost predicate Buffering()
      reads this
    {
      chunkSize >= 1 ==> |Order()| >= 1 && |chunk| == Buffered(|Order()| - 1, chunkSize)
    }

    /** What the invariant means for the source's own variables: every
        visited URL was discovered; the queue holds discovered, unvisited URLs,
        each once; the counter counts the discovered set; the root stays
        discovered; a chunk size of at least one bounds the buffer. */
    lemma StateFacts()
      requires Valid() && Buffering()
      ensures visited <= discovered
      ensures forall x :: x in queue ==> x in discovered && x !in visited
      ensures NoDup(queue)
      ensures totalCount == |discovered|
      ensures domain in discovered
      ensures chunkSize >= 1 ==> |chunk| < chunkSize
      ensures chunkSize >= 1 ==> |chunk| == (|discovered| - 1) % chunkSize
      ensures lines == Order()[..|Order()| - |chunk|]
    {
      if chunkSize >= 1 {
        BufferedMod(|Order()| - 1, chunkSize);
      }
      var o := Order();
      var m := |o| - |queue|;
      assert o[0] == domain;
      forall x | x in queue ensures x in discovered && x !in visited {
        var k :| 0 <= k < |queue| && queue[k] == x;
        assert x == o[m + k];
        assert x !in o[..m];
      }
      forall i, j | 0 <= i < j < |queue| ensures queue[i] != queue[j] {
        assert queue[i] == o[m + i] && queue[j] == o[m + j];
      }
    }

    /** Sets up the frontier with the root alone and writes the root as the
        first line of a fresh output file. */
    constructor (lib: UrlLib, domain: string, chunkSize: int)
      ensures Valid() && Buffering()
      ensures this.lib == lib && this.domain == domain && this.chunkSize == chunkSize
      ensures domainNetloc == DomainNetloc(lib, domain) && filter == SiteFilter(lib, domainNetloc)
      ensures queue == [domain] && discovered == {domain} && visited == {}
      ensures chunk == [] && totalCount == 1 && lines == [domain]
      ensures Serialize(lines) == domain + "\n"
      ensures Order() == [domain]
    {
      this.lib := lib;
      this.domain := domain;
      this.chunkSize := chunkSize;
      domainNetloc := DomainNetloc(lib, domain);
      filter := SiteFilter(lib, DomainNetloc(lib, domain));
      queue := [domain];
      discovered := {domain};
      visited := {};
      chunk := [];
      totalCount := 1;
      lines := [domain];
      new;
      assert Order() == [domain];
      assert Order()[|Order()| - |queue|..] == [domain];
      assert Order()[..|Order()| - |queue|] == [];
    }

    /** `flush_chunk`: appends the buffered URLs to the file, one per line,
        and empties the buffer; an empty buffer writes nothing. The text
        added to the file is `"\n".join(chunk) + "\n"` for a non-empty buffer. */
    method Flush()
      requires Core()
      modifies this`chunk, this`lines
      ensures Core() && chunk == []
      ensures lines == old(lines) + old(chunk)
      ensures Serialize(lines) ==
        old(Serialize(lines)) + (if old(chunk) == [] then "" else Join(old(chunk), '\n') + "\n")
    {
      if chunk != [] {
        JoinedChunk(chunk);
        SerializeAppend(lines, chunk);
        lines := lines + chunk;
        chunk := [];
      } else {
        assert lines + [] == lines;
      }
      assert Order() == old(Order());
    }

    /** The dedup gate: a URL not yet discovered is recorded as discovered,
        queued, counted and buffered (flushing a full buffer); a known URL
        changes nothing. */
    method Offer(u: string) returns (added: bool)
      requires Valid() && Buffering()
      modifies this`discovered, this`queue, this`chunk, this`totalCount, this`lines
      ensures Valid() && Buffering() && (chunkSize >= 1 ==> |chunk| < chunkSize)
      ensures added == (u !in old(discovered))
      ensures discovered == old(discovered) + {u}
      ensures Order() == old(Order()) + (if added then [u] else [])
      ensures queue == old(queue) + (if added then [u] else [])
      ensures old(lines) <= lines
      ensures !added ==> chunk == old(chunk) && lines == old(lines) && totalCount == old(totalCount)
      ensures added ==> totalCount == old(totalCount) + 1
      ensures added && |old(chunk)| + 1 >= chunkSize ==> chunk == [] && lines == old(lines) + old(chunk) + [u]
      ensures added && |old(chunk)| + 1 < chunkSize ==> chunk == old(chunk) + [u] && lines == old(lines)
    {
      added := u !in discovered;
      if added {
        ghost var a, c := |Order()| - 1, |chunk|;
        Record(u);
        if |chunk| >= chunkSize {
          Flush();
        }
        if chunkSize >= 1 {
          BufferedNext(a, c, chunkSize, |chunk|);
        }
      }
    }

    /** Marks a new URL discovered, queues it, counts it and buffers it. */
    method Record(u: string)
      requires Valid() && u !in discovered
      modifies this`discovered, this`queue, this`chunk, this`totalCount
      ensures Core() && |chunk| <= Cap(chunkSize)
      ensures discovered == old(discovered) + {u}
      ensures Order() == old(Order()) + [u]
      ensures queue == old(queue) + [u]
      ensures chunk == old(chunk) + [u] && totalCount == old(totalCount) + 1
    {
      ghost var o := Order();
      Discover(o, queue, discovered, u);
      discovered := discovered + {u};
      queue := queue + [u];
      chunk := chunk + [u];
      totalCount := totalCount + 1;
      assert Order() == o + [u];
    }

    /** One iteration of the crawl loop: pops the head of the queue, marks it
        visited, and on a page that renders offers each accepted link in page
        order. The popped URL was never visited before, and a failed fetch
        changes nothing but `visited` and the queue's head. */
    method Step(web: Web) returns (current: string)
      requires Valid() && Buffering() && queue != []
      modifies this
      ensures Valid() && Buffering()
      ensures current == old(queue[0]) && current !in old(visited)
      ensures visited == old(visited) + {current}
      ensures Order() == old(Order()) + Dedup(old(Order()), PageLinks(filter, web, current))
      ensures queue == old(queue[1..]) + Dedup(old(Order()), PageLinks(filter, web, current))
      ensures old(lines) <= lines
      ensures current !in web ==>
        && discovered == old(discovered) && chunk == old(chunk) && lines == old(lines)
        && totalCount == old(totalCount) && queue == old(queue[1..])
    {
      ghost var o := Order();
      ghost var m := |o| - |queue|;
      current := queue[0];
      assert current == o[m];
      assert current !in o[..m];
      assert current !in visited;
      queue := queue[1..];
      if current in visited {
        return;
      }
      visited := visited + {current};
      assert o[..m + 1] == o[..m] + [current];
      if current !in web {
        assert Dedup(o, []) == [];
        return;
      }
      assert PageLinks(filter, web, current) == Kept(Verdicts(filter, current, web[current]));
      VisitPage(current, web[current]);
    }

    /** The anchor loop over one rendered page: each href that the filter
        accepts is offered, in page order. */
    method VisitPage(base: string, hrefs: seq<string>)
      requires Valid() && Buffering()
      modifies this`discovered, this`queue, this`chunk, this`totalCount, this`lines
      ensures Valid() && Buffering()
      ensures Order() == old(Order()) + Dedup(old(Order()), Kept(Verdicts(filter, base, hrefs)))
      ensures queue == old(queue) + Dedup(old(Order()), Kept(Verdicts(filter, base, hrefs)))
      ensures old(lines) <= lines
    {
      ghost var o := Order();
      ghost var vs := Verdicts(filter, base, hrefs);
      var k := 0;
      assert vs[..0] == [];
      assert Dedup(o, Kept([])) == [];
      assert o + [] == o && queue + [] == queue;
      while k < |hrefs|
        invariant 0 <= k <= |hrefs|
        invariant Valid()
        invariant Order() == o + Dedup(o, Kept(vs[..k]))
        invariant queue == old(queue) + Dedup(o, Kept(vs[..k]))
        invariant old(lines) <= lines
        invariant Buffering()
      {
        ghost var d := Dedup(o, Kept(vs[..k]));
        var verdict := filter(base, hrefs[k]);
        PageStep(o, vs, k);
        ghost var extra := if verdict.Accepted? && verdict.url !in o + d then [verdict.url] else [];
        if verdict.Accepted? {
          ghost var before := lines;
          var added := Offer(verdict.url);
          PrefixTrans(old(lines), before, lines);
        }
        Assoc(o, d, extra);
        Assoc(old(queue), d, extra);
        k := k + 1;
      }
      assert vs[..|vs|] == vs;
    }

    /** The URLs fetched so far: the head of the discovery order before the queue. */
    ghost function Fetched(): seq<string>
      reads this
      requires |queue| <= |Order()|
    {
      Order()[..|Order()| - |queue|]
    }

    /** What the crawl has established about `web`: every link of a visited
        page is discovered, every discovered URL after the root is linked
        from an earlier one, and every discovered URL is in the universe. */
    ghost predicate Explored(web: Web)
      reads this
    {
      ExploredBy(filter, web, domain, Order(), visited)
    }

    /** The URLs the crawl may still fetch; a finite set that every step shrinks. */
    ghost function Remaining(web: Web): set<string>
      reads this
    {
      Universe(filter, web, domain) - visited
    }

    /** One loop iteration seen from the crawl's invariant: the popped URL is
        the next one in discovery order, what the crawl established about
        the web stays true, and fewer URLs remain. */
    method Advance(web: Web) returns (current: string)
      requires Valid() && Buffering() && queue != [] && Explored(web)
      modifies this
      ensures Valid() && Buffering() && Explored(web)
      ensures Fetched() == old(Fetched()) + [current]
      ensures |Remaining(web)| < old(|Remaining(web)|)
      ensures current == old(queue[0]) && visited == old(visited) + {current}
      ensures Order() == old(Order()) + Dedup(old(Order()), PageLinks(filter, web, current))
      ensures queue == old(queue[1..]) + Dedup(old(Order()), PageLinks(filter, web, current))
      ensures old(lines) <= lines
    {
      ghost var o := Order();
      ghost var m := |o| - |queue|;
      ghost var before := visited;
      current := Step(web);
      assert current == o[m];
      assert visited - {current} == before;
      CrawlStep(filter, web, domain, o, m, before);
      PrefixGrows(o, Dedup(o, PageLinks(filter, web, current)), m);
    }

    /** At the start only the root is discovered and nothing is fetched. */
    lemma Started(web: Web)
      requires Valid() && queue == [domain] && Order() == [domain]
      ensures Explored(web) && Fetched() == []
    {
      assert Fetched() == [];
      assert visited == {};
    }

    /** Once the queue is empty every discovered URL has been fetched, so
        the discovery order is closed under the page links. */
    lemma Finished(web: Web)
      requires Valid() && queue == [] && Explored(web)
      ensures Fetched() == Order()
      ensures Closed(filter, web, Order()) && Justified(filter, web, Order())
    {
      assert Fetched() == Order();
      forall u, v | u in Order() && LinksTo(filter, web, u, v) ensures v in Order() {
        assert u in visited;
      }
    }

    /** The `while queue` loop and the final flush: steps until the frontier
        is empty, then writes what is left in the buffer. Every discovered
        page gets fetched, in discovery order; the file lists every
        discovered URL once, root first, in discovery order; and the
        discovered URLs are closed under the page links. */
    method Run(web: Web) returns (ghost fetched: seq<string>)
      requires Valid() && Buffering() && queue == [domain] && Order() == [domain]
      modifies this
      ensures Core() && queue == [] && chunk == []
      ensures (forall x :: x in discovered <==> x in lines) && visited == discovered
      ensures |lines| >= 1 && lines[0] == domain && NoDup(lines)
      ensures totalCount == |lines| && fetched == lines
      ensures Closed(filter, web, lines)
      ensures Justified(filter, web, lines)
    {
      fetched := [];
      Started(web);
      while queue != []
        invariant Valid() && Buffering() && Explored(web)
        invariant fetched == Fetched()
        decreases |Remaining(web)|
      {
        var current := Advance(web);
        fetched := fetched + [current];
      }
      Finished(web);
      ghost var o := Order();
      Flush();
      assert lines == o;
      assert Order() == lines;
    }
  }

  /** Discovering a new URL appends it to the discovery order and the queue:
      the order stays repetition free, the queue stays its tail, and the
      fetched head is unchanged. */
  lemma Discover(o: seq<string>, q: seq<string>, d: set<string>, u: string)
    requires NoDup(o) && u !in o
    requires |q| <= |o| && q == o[|o| - |q|..]
    requires (forall x :: x in d <==> x in o) && |d| == |o|
    ensures NoDup(o + [u])
    ensures q + [u] == (o + [u])[|o + [u]| - |q + [u]|..]
    ensures (o + [u])[..|o + [u]| - |q + [u]|] == o[..|o| - |q|]
    ensures forall x :: x in d + {u} <==> x in o + [u]
    ensures |d + {u}| == |o + [u]|
  {
    assert u !in d;
  }

  /** The number of lines a buffer holds after `a` lines went through it,
      when it is flushed each time it reaches `n` lines. */
  function Buffered(a: nat, n: int): nat
    requires n >= 1
    decreases a
  {
    if a < n then a else Buffered(a - n, n)
  }

  /** A buffer holding what `a` lines left in it, taking `e` more lines,
      holds what `a + e` lines leave. */
  lemma {:induction false} BufferedAdd(a: nat, n: int, e: nat)
    requires n >= 1
    ensures Buffered(Buffered(a, n) + e, n) == Buffered(a + e, n)
    decreases a
  {
    if a >= n {
      BufferedAdd(a - n, n, e);
    }
  }

  /** A buffer holding what `a` lines left, below `n`, that takes one more
      line and is flushed exactly when it reaches `n`, holds what `a + 1`
      lines leave. */
  lemma BufferedNext(a: nat, c: nat, n: int, c': nat)
    requires n >= 1 && c == Buffered(a, n) && c < n
    requires c' == if c + 1 >= n then 0 else c + 1
    ensures c' == Buffered(a + 1, n)
  {
    BufferedAdd(a, n, 1);
    if c + 1 == n {
      assert Buffered(c + 1, n) == Buffered(0, n);
    }
  }

  /** The buffer holds the remainder of the lines that went through it. */
  lemma {:induction false} BufferedMod(a: nat, n: int)
    requires n >= 1
    ensures Buffered(a, n) == a % n
    decreases a
  {
    if a < n {
      ModOf(a, n, 0, a);
    } else {
      BufferedMod(a - n, n);
      ModOf(a, n, (a - n) / n + 1, (a - n) % n);
    }
  }

  /** The remainder is the unique `r` in `[0, n)` with `x == q * n + r`. */
  lemma ModOf(x: int, n: int, q: int, r: int)
    requires n >= 1 && 0 <= r < n && x == q * n + r
    ensures x % n == r
  {
    var q', r' := x / n, x % n;
    assert x == q' * n + r';
    assert (q - q') * n == r' - r;
    if q > q' {
      MulAtLeast(q - q', n);
    } else if q < q' {
      MulAtLeast(q' - q, n);
    }
  }

  lemma {:induction false} MulAtLeast(k: int, n: int)
    requires k >= 1 && n >= 1
    ensures k * n >= n
    decreases k
  {
    if k > 1 {
      MulAtLeast(k - 1, n);
      assert k * n == (k - 1) * n + n;
    }
  }

  lemma PrefixTrans<T>(a: seq<T>, b: seq<T>, c: seq<T>)
    requires a <= b && b <= c
    ensures a <= c
  {
  }

  lemma PrefixGrows<T>(o: seq<T>, extra: seq<T>, m: nat)
    requires m < |o|
    ensures (o + extra)[..m + 1] == o[..m] + [o[m]]
  {
    assert (o + extra)[..m + 1] == o[..m + 1];
  }

  lemma Assoc<T>(a: seq<T>, b: seq<T>, c: seq<T>)
    ensures (a + b) + c == a + (b + c)
  {
  }

  /** One more href of the page extends the de-duplicated accepted links by
      its URL exactly when the filter accepts it and it is new. */
  lemma PageStep(o: seq<string>, vs: seq<Verdict>, k: nat)
    requires k < |vs|
    ensures var d := Dedup(o, Kept(vs[..k]));
      Dedup(o, Kept(vs[..k + 1])) == d + (if vs[k].Accepted? && vs[k].url !in o + d then [vs[k].url] else [])
  {
    KeptStep(vs, k);
    var d := Dedup(o, Kept(vs[..k]));
    if vs[k].Accepted? {
      assert Kept(vs[..k + 1]) == Kept(vs[..k]) + [vs[k].url];
      DedupStep(o, Kept(vs[..k]), vs[k].url);
    } else {
      assert Kept(vs[..k + 1]) == Kept(vs[..k]);
      assert d + [] == d;
    }
  }

  /** One more verdict adds its URL, if accepted, to the kept links. */
  lemma KeptStep(vs: seq<Verdict>, k: nat)
    requires k < |vs|
    ensures Kept(vs[..k + 1]) == Kept(vs[..k]) + (if vs[k].Accepted? then [vs[k].url] else [])
  {
    assert DropLast(vs[..k + 1]) == vs[..k];
  }

  /** One more candidate joins the de-duplicated links exactly when it is new. */
  lemma DedupStep(seen: seq<string>, vs: seq<string>, u: string)
    ensures Dedup(seen, vs + [u])
      == Dedup(seen, vs) + (if u in seen + Dedup(seen, vs) then [] else [u])
  {
    assert DropLast(vs + [u]) == vs;
  }

  /** Extending a justified order by links of one of its pages keeps it justified. */
  lemma JustifiedExtend(filter: Filter, web: Web, order: seq<string>, m: nat, newLinks: seq<string>)
    requires Justified(filter, web, order)
    requires m < |order|
    requires forall x :: x in newLinks ==> LinksTo(filter, web, order[m], x)
    ensures Justified(filter, web, order + newLinks)
  {
    var o := order + newLinks;
    forall i | 0 < i < |o| ensures HasParent(filter, web, o, i) {
      if i < |order| {
        assert HasParent(filter, web, order, i);
        var j :| 0 <= j < i && LinksTo(filter, web, order[j], order[i]);
        assert o[j] == order[j] && o[i] == order[i];
      } else {
        assert o[i] == newLinks[i - |order|];
        assert o[m] == order[m];
        assert LinksTo(filter, web, o[m], o[i]);
      }
    }
  }

  /** Every link of a page in `visited` leads into `order`, every URL of
      `order` after the first is linked from an earlier one, and `order`
      lies inside the universe of the crawl from `domain`. */
  ghost predicate ExploredBy(filter: Filter, web: Web, domain: string, order: seq<string>, visited: set<string>) {
    && (forall u, v :: u in visited && LinksTo(filter, web, u, v) ==> v in order)
    && Justified(filter, web, order)
    && (forall x :: x in order ==> x in Universe(filter, web, domain))
  }

  /** What one crawl step keeps: fetching the page at position `m` of the
      discovery order `o`, whose head before `m` is `visited`, and appending
      its new links keeps every fetched page's links discovered, keeps the
      order justified and inside the universe, and shrinks the set of URLs
      still to fetch. */
  lemma CrawlStep(filter: Filter, web: Web, domain: string, o: seq<string>, m: nat, visited: set<string>)
    requires m < |o| && NoDup(o)
    requires forall x :: x in visited <==> x in o[..m]
    requires ExploredBy(filter, web, domain, o, visited)
    ensures ExploredBy(filter, web, domain, o + Dedup(o, PageLinks(filter, web, o[m])), visited + {o[m]})
    ensures |Universe(filter, web, domain) - (visited + {o[m]})| < |Universe(filter, web, domain) - visited|
  {
    var links := PageLinks(filter, web, o[m]);
    LinksStep(filter, web, o, m, visited);
    DedupSpec(o, links);
    JustifiedExtend(filter, web, o, m, Dedup(o, links));
    UniverseStep(filter, web, domain, o, m);
    assert o[m] !in visited by {
      assert o[m] !in o[..m];
    }
    Shrinks(Universe(filter, web, domain), visited, o[m]);
  }

  /** Fetching the page at position `m` of the discovery order `o` and
      appending its new links discovers every link of every fetched page. */
  lemma LinksStep(filter: Filter, web: Web, o: seq<string>, m: nat, visited: set<string>)
    requires m < |o| && NoDup(o)
    requires forall u, v :: u in visited && LinksTo(filter, web, u, v) ==> v in o
    ensures var o' := o + Dedup(o, PageLinks(filter, web, o[m]));
      forall u, v :: u in visited + {o[m]} && LinksTo(filter, web, u, v) ==> v in o'
  {
    DedupSpec(o, PageLinks(filter, web, o[m]));
  }

  /** The same step keeps the discovery order inside the universe. */
  lemma UniverseStep(filter: Filter, web: Web, domain: string, o: seq<string>, m: nat)
    requires m < |o| && NoDup(o)
    requires forall x :: x in o ==> x in Universe(filter, web, domain)
    ensures var o' := o + Dedup(o, PageLinks(filter, web, o[m]));
      forall x :: x in o' ==> x in Universe(filter, web, domain)
  {
    var links := PageLinks(filter, web, o[m]);
    DedupSpec(o, links);
    forall x | x in links ensures x in Universe(filter, web, domain) {
      assert o[m] in web;
    }
  }

  /** Removing one more member of a finite set leaves fewer elements. */
  lemma Shrinks<T>(all: set<T>, done: set<T>, x: T)
    requires x in all && x !in done
    ensures |all - (done + {x})| < |all - done|
  {
    assert all - (done + {x}) == (all - done) - {x};
    assert x in all - done;
  }

  /** The crawl loop of `extract_product_urls_headless`, the final flush, and
      the count it returns. Every discovered URL is written exactly once,
      root first, in discovery order; pages are fetched exactly once each, in
      the same order; the result is closed under the page links and every
      URL after the root is linked from an earlier one. */
  method ExtractProductUrls(lib: UrlLib, web: Web, domain: string, chunkSize: int)
    returns (total: int, lines: seq<string>, ghost fetched: seq<string>)
    ensures |lines| >= 1 && lines[0] == domain && NoDup(lines)
    ensures total == |lines|
    ensures fetched == lines
    ensures Closed(SiteFilter(lib, DomainNetloc(lib, domain)), web, lines)
    ensures Justified(SiteFilter(lib, DomainNetloc(lib, domain)), web, lines)
  {
    var c := new Crawl(lib, domain, chunkSize);
    fetched := c.Run(web);
    total := c.totalCount;
    lines := c.lines;
  }

  /** The crawl finds nothing beyond what it must: any set that holds the
      root and is closed under the page links holds every URL of a
      justified order starting at the root. With `ExtractProductUrls`, the
      URLs in the file are exactly the least such set. */
  lemma {:induction false} LeastClosed(filter: Filter, web: Web, order: seq<string>, s: set<string>)
    requires |order| >= 1 && order[0] in s
    requires Justified(filter, web, order)
    requires forall u, v :: u in s && LinksTo(filter, web, u, v) ==> v in s
    ensures forall x :: x in order ==> x in s
  {
    forall i | 0 <= i < |order| ensures order[i] in s {
      ReachedAt(filter, web, order, s, i);
    }
  }

  lemma {:induction false} ReachedAt(filter: Filter, web: Web, order: seq<string>, s: set<string>, i: nat)
    requires i < |order| && order[0] in s
    requires Justified(filter, web, order)
    requires forall u, v :: u in s && LinksTo(filter, web, u, v) ==> v in s
    ensures order[i] in s
    decreases i
  {
    if i > 0 {
      assert HasParent(filter, web, order, i);
      var j :| 0 <= j < i && LinksTo(filter, web, order[j], order[i]);
      ReachedAt(filter, web, order, s, j);
    }
  }
}
