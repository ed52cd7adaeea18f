/** The parts of Python's `urllib.parse` the crawler uses. Resolution
    (`urljoin`), splitting (`urlparse`) and percent-decoding are collaborators
    the model does not define: they are fields of a `UrlLib` value that callers
    pass in. Reassembly (`geturl`/`urlunparse`), query parsing (`parse_qs`) and
    re-encoding (`urlencode(..., doseq=True)` with `quote_plus`) are defined here. */
module Urls {
  import opened Text
  import opened Seqs

  /** The six fields of a `ParseResult`. */
  datatype Url = Url(scheme: string, netloc: string, path: string,
                     params: string, query: string, fragment: string)

  /** The library routines the model treats as given. */
  datatype UrlLib = UrlLib(
    join: (string, string) -> string,  // urljoin(base, href)
    parse: string -> Url,              // urlparse(s)
    percentDecode: string -> string)   // what unquote does to a string holding '%'

  /** Schemes for which `urlunsplit` writes `//` even when the netloc is empty. */
  const UsesNetloc: seq<string> := ["", "ftp", "http", "gopher", "nntp", "telnet",
    "imap", "wais", "file", "mms", "https", "shttp", "snews", "prospero", "rtsp",
    "rtspu", "rsync", "svn", "svn+ssh", "sftp", "nfs", "git", "git+ssh", "ws", "wss"]

  /** `urlunsplit` of scheme, netloc and path: everything before the query. */
  function UnsplitHead(scheme: string, netloc: string, path: string): string
  {
    var url :=
      if netloc != "" || (scheme != "" && scheme in UsesNetloc && !StartsWith(path, "//")) then
        "//" + netloc + (if path != "" && path[0] != '/' then "/" + path else path)
      else path;
    if scheme != "" then scheme + ":" + url else url
  }

  /** Everything `geturl` writes before the `?query` and `#fragment` parts. */
  function Head(p: Url): string
  {
    UnsplitHead(p.scheme, p.netloc, if p.params != "" then p.path + ";" + p.params else p.path)
  }

  function QueryPart(query: string): string { if query != "" then "?" + query else "" }

  function FragmentPart(fragment: string): string { if fragment != "" then "#" + fragment else "" }

  /** `ParseResult.geturl()`, i.e. `urlunparse` of the six fields. */
  function Unparse(p: Url): string
  {
    Head(p) + QueryPart(p.query) + FragmentPart(p.fragment)
  }

  /** A netloc, when present, is written right after `scheme:` as `//netloc`. */
  lemma UnparseWithNetloc(p: Url)
    requires p.netloc != ""
    ensures StartsWith(Unparse(p), (if p.scheme != "" then p.scheme + ":" else "") + "//" + p.netloc)
  {
    var path := if p.params != "" then p.path + ";" + p.params else p.path;
    HeadWithNetloc(p.scheme, p.netloc, path);
    assert Head(p) <= Unparse(p);
  }

  lemma HeadWithNetloc(scheme: string, netloc: string, path: string)
    requires netloc != ""
    ensures StartsWith(UnsplitHead(scheme, netloc, path), (if scheme != "" then scheme + ":" else "") + "//" + netloc)
  {
    var url := "//" + netloc + (if path != "" && path[0] != '/' then "/" + path else path);
    assert UnsplitHead(scheme, netloc, path) == (if scheme != "" then scheme + ":" else "") + url;
  }

  /** A `#` appears in the serialised URL exactly when the head or the query
      holds one or there is a fragment. */
  lemma FragmentMarker(p: Url)
    ensures '#' in Unparse(p) <==> '#' in Head(p) || '#' in p.query || p.fragment != ""
  {
    var h, q, f := Head(p), QueryPart(p.query), FragmentPart(p.fragment);
    assert Unparse(p) == h + q + f;
    assert '#' in h + q + f <==> '#' in h || '#' in q || '#' in f;
    assert '#' in q <==> '#' in p.query by {
      if p.query != "" { assert q == ['?'] + p.query; }
    }
    if p.fragment != "" { assert f[0] == '#'; }
  }

  /** Replacing the query of a URL whose serialisation has no `#` by a query
      without `#` gives a serialisation without `#`. */
  lemma ReplacedQueryHasNoMarker(p: Url, q: string)
    requires '#' !in Unparse(p) && '#' !in q
    ensures '#' !in Unparse(p.(query := q))
  {
    FragmentMarker(p);
    FragmentMarker(p.(query := q));
  }

  // ---------------------------------------------------------------------------
  // quote_plus

  /** The characters `quote` never escapes. */
  predicate Unreserved(c: char) {
    ('A' <= c <= 'Z') || ('a' <= c <= 'z') || ('0' <= c <= '9')
    || c == '_' || c == '.' || c == '-' || c == '~'
  }

  predicate IsByte(b: int) { 0 <= b < 256 }

  /** The UTF-8 encoding of one scalar value. */
  function Utf8(c: char): (r: seq<int>)
    ensures 1 <= |r| <= 4
    ensures forall i :: 0 <= i < |r| ==> IsByte(r[i])
    ensures (c as int < 0x80) == (|r| == 1)
    ensures |r| == 1 ==> r[0] == c as int
    ensures |r| > 1 ==> 0xC0 <= r[0] && forall i :: 1 <= i < |r| ==> 0x80 <= r[i] < 0xC0
  {
    var cp := c as int;
    if cp < 0x80 then [cp]
    else if cp < 0x800 then [0xC0 + cp / 64, 0x80 + cp % 64]
    else if cp < 0x1_0000 then [0xE0 + cp / 4096, 0x80 + (cp / 64) % 64, 0x80 + cp % 64]
    else [0xF0 + cp / 262144, 0x80 + (cp / 4096) % 64, 0x80 + (cp / 64) % 64, 0x80 + cp % 64]
  }

  function HexDigit(n: int): (c: char)
    requires 0 <= n < 16
    ensures Unreserved(c)
  {
    "0123456789ABCDEF"[n]
  }

  /** `%XX` for every byte, upper-case hexadecimal. */
  function PercentBytes(bs: seq<int>): (r: string)
    requires forall i :: 0 <= i < |bs| ==> IsByte(bs[i])
    ensures |r| == 3 * |bs|
    ensures forall i :: 0 <= i < |r| ==> Unreserved(r[i]) || r[i] == '%'
  {
    if bs == [] then ""
    else
      assert IsByte(bs[0]);
      ['%', HexDigit(bs[0] / 16), HexDigit(bs[0] % 16)] + PercentBytes(bs[1..])
  }

  function QuoteChar(c: char): (r: string)
  {
    if Unreserved(c) then [c]
    else if c == ' ' then "+"
    else PercentBytes(Utf8(c))
  }

  /** `quote_plus(s)` with the default empty `safe` set: unreserved characters
      stay, a space becomes `+`, everything else becomes `%XX` per UTF-8 byte. */
  function QuotePlus(s: string): (r: string)
    ensures forall i :: 0 <= i < |r| ==> Unreserved(r[i]) || r[i] == '%' || r[i] == '+'
  {
    if s == [] then "" else QuoteChar(s[0]) + QuotePlus(s[1..])
  }

  // ---------------------------------------------------------------------------
  // parse_qs and urlencode

  /** `unquote`: a string without `%` is returned unchanged. */
  function Unquote(lib: UrlLib, s: string): string
  {
    if '%' in s then lib.percentDecode(s) else s
  }

  /** A name or value of a query field: `+` means space, then percent-decoding. */
  function DecodeComponent(lib: UrlLib, s: string): string
  {
    Unquote(lib, Replace(s, "+", " "))
  }

  /** One `&`-separated field as `parse_qsl` (blank values dropped, not strict)
      reads it: empty fields, fields without `=` and fields with an empty value
      give nothing; otherwise the name before the first `=` and the rest. */
  function ParseField(lib: UrlLib, field: string): seq<(string, string)>
  {
    var nv := Split(field, '=');
    if field == "" || |nv| < 2 then []
    else
      var value := Join(nv[1..], '=');
      if value == "" then [] else [(DecodeComponent(lib, nv[0]), DecodeComponent(lib, value))]
  }

  function ParseFields(lib: UrlLib, fields: seq<string>): seq<(string, string)>
  {
    if fields == [] then [] else ParseField(lib, fields[0]) + ParseFields(lib, fields[1..])
  }

  /** `parse_qsl(query)`: the decoded name/value pairs in query order. */
  function ParseQsl(lib: UrlLib, query: string): seq<(string, string)>
  {
    ParseFields(lib, Split(query, '&'))
  }

  function Names<V>(ps: seq<(string, V)>): (r: seq<string>)
    ensures |r| == |ps| && forall i :: 0 <= i < |ps| ==> r[i] == ps[i].0
  {
    if ps == [] then [] else [ps[0].0] + Names(ps[1..])
  }

  /** The values of `name`, in the order they occur among the pairs. */
  function ValuesOf(ps: seq<(string, string)>, name: string): seq<string>
  {
    if ps == [] then []
    else ValuesOf(DropLast(ps), name) + (if Last(ps).0 == name then [Last(ps).1] else [])
  }

  /** Appends `value` to the list of `name`, creating that list at the end
      if the name is new (a Python dict keeps insertion order). */
  function AddValue(groups: seq<(string, seq<string>)>, name: string, value: string)
    : seq<(string, seq<string>)>
  {
    if groups == [] then [(name, [value])]
    else if groups[0].0 == name then [(name, groups[0].1 + [value])] + groups[1..]
    else [groups[0]] + AddValue(groups[1..], name, value)
  }

  /** Adding a value keeps the names in place and appends a new name at the end. */
  lemma {:induction false} AddValueNames(groups: seq<(string, seq<string>)>, name: string, value: string)
    ensures Names(AddValue(groups, name, value))
         == if name in Names(groups) then Names(groups) else Names(groups) + [name]
  {
    if groups != [] && groups[0].0 != name {
      var tail := groups[1..];
      AddValueNames(tail, name, value);
      assert Names(groups) == [groups[0].0] + Names(tail);
      assert name in Names(groups) <==> name in Names(tail);
    }
  }

  /** Adding a value grows the list of that name, and only that list, by the value. */
  lemma {:induction false} AddValueValues(groups: seq<(string, seq<string>)>, name: string, value: string)
    requires NoDup(Names(groups))
    ensures |AddValue(groups, name, value)| == if name in Names(groups) then |groups| else |groups| + 1
    ensures forall i :: 0 <= i < |groups| ==>
      AddValue(groups, name, value)[i].1 == if groups[i].0 == name then groups[i].1 + [value] else groups[i].1
    ensures name !in Names(groups) ==> AddValue(groups, name, value)[|groups|].1 == [value]
  {
    if groups != [] {
      var tail := groups[1..];
      assert Names(groups) == [groups[0].0] + Names(tail);
      if groups[0].0 == name {
        forall i | 1 <= i < |groups| ensures groups[i].0 != name {
          assert Names(groups)[0] == groups[0].0 && Names(groups)[i] == groups[i].0;
        }
      } else {
        assert NoDup(Names(tail)) by {
          forall i, j | 0 <= i < j < |tail| ensures Names(tail)[i] != Names(tail)[j] {
            assert Names(groups)[i + 1] == Names(tail)[i] && Names(groups)[j + 1] == Names(tail)[j];
          }
        }
        AddValueValues(tail, name, value);
        assert AddValue(groups, name, value) == [groups[0]] + AddValue(tail, name, value);
        assert name in Names(groups) <==> name in Names(tail);
      }
    }
  }

  /** `parse_qs`: the pairs grouped into one list per name. */
  function Group(ps: seq<(string, string)>): seq<(string, seq<string>)>
  {
    if ps == [] then [] else AddValue(Group(DropLast(ps)), Last(ps).0, Last(ps).1)
  }

  lemma {:induction false} ValuesOfAbsent(ps: seq<(string, string)>, name: string)
    requires name !in Names(ps)
    ensures ValuesOf(ps, name) == []
  {
    if ps != [] {
      assert Names(DropLast(ps)) == DropLast(Names(ps));
      ValuesOfAbsent(DropLast(ps), name);
    }
  }

  /** `parse_qs` lists each name once, in order of first appearance. */
  lemma {:induction false} GroupNames(ps: seq<(string, string)>)
    ensures Names(Group(ps)) == Dedup([], Names(ps))
    ensures NoDup(Names(Group(ps)))
    ensures forall x :: x in Names(Group(ps)) <==> x in Names(ps)
  {
    var names := Names(ps);
    DedupSpec([], names);
    assert [] + Dedup([], names) == Dedup([], names);
    if ps != [] {
      var init := DropLast(ps);
      var n := Last(ps).0;
      GroupNames(init);
      var g0 := Group(init);
      AddValueNames(g0, n, Last(ps).1);
      assert Names(init) == DropLast(names);
      assert Last(names) == n;
      var d := Dedup([], Names(init));
      assert Names(g0) == d;
      assert [] + d == d;
      assert Dedup([], names) == if n in d then d else d + [n];
    }
    assert Names(Group(ps)) == Dedup([], names);
  }

  /** Each list of `parse_qs` holds all values of its name, in query order. */
  lemma {:induction false} GroupSpec(ps: seq<(string, string)>)
    ensures forall i :: 0 <= i < |Group(ps)| ==> Group(ps)[i].1 == ValuesOf(ps, Group(ps)[i].0)
  {
    if ps != [] {
      GroupSpec(DropLast(ps));
      forall i | 0 <= i < |Group(ps)| ensures Group(ps)[i].1 == ValuesOf(ps, Group(ps)[i].0) {
        GroupStepAt(ps, i);
      }
    }
  }

  /** One step of `GroupSpec`: the last pair extends the list of its name. */
  lemma GroupStepAt(ps: seq<(string, string)>, i: nat)
    requires ps != [] && i < |Group(ps)|
    requires forall k :: 0 <= k < |Group(DropLast(ps))| ==>
      Group(DropLast(ps))[k].1 == ValuesOf(DropLast(ps), Group(DropLast(ps))[k].0)
    ensures Group(ps)[i].1 == ValuesOf(ps, Group(ps)[i].0)
  {
    var init := DropLast(ps);
    var n, v := Last(ps).0, Last(ps).1;
    var g0 := Group(init);
    var g := Group(ps);
    assert g == AddValue(g0, n, v);
    GroupNames(init);
    AddValueNames(g0, n, v);
    AddValueValues(g0, n, v);
    var k := g[i].0;
    assert Names(g)[i] == k;
    assert ValuesOf(ps, k) == ValuesOf(init, k) + (if n == k then [v] else []);
    if i < |g0| {
      assert Names(g0)[i] == g0[i].0 == k;
      assert g0[i].1 == ValuesOf(init, k);
      assert g[i].1 == if k == n then g0[i].1 + [v] else g0[i].1;
    } else {
      assert n !in Names(g0);
      assert k == n;
      assert n !in Names(init);
      ValuesOfAbsent(init, n);
      assert i == |g0|;
      assert g[i].1 == [v];
    }
  }

  /** `k=v` for every value of every name, names in dict order. */
  function EncodedFields(groups: seq<(string, seq<string>)>): seq<string>
  {
    if groups == [] then []
    else EncodedValues(QuotePlus(groups[0].0), groups[0].1) + EncodedFields(groups[1..])
  }

  function EncodedValues(key: string, values: seq<string>): seq<string>
  {
    if values == [] then [] else [key + "=" + QuotePlus(values[0])] + EncodedValues(key, values[1..])
  }

  /** `urlencode(groups, doseq=True)`. */
  function Urlencode(groups: seq<(string, seq<string>)>): string
  {
    Join(EncodedFields(groups), '&')
  }

  /** The query normalisation of the link filter:
      `urlencode(dict(parse_qs(query)), doseq=True)`. */
  function NormalizeQuery(lib: UrlLib, query: string): string
  {
    Urlencode(Group(ParseQsl(lib, query)))
  }

  /** The characters a normalised query can hold. */
  predicate QueryChar(c: char) {
    Unreserved(c) || c == '%' || c == '+' || c == '=' || c == '&'
  }

  lemma {:induction false} JoinChars(parts: seq<string>, sep: char, ok: char -> bool)
    requires ok(sep)
    requires forall i, j :: 0 <= i < |parts| && 0 <= j < |parts[i]| ==> ok(parts[i][j])
    ensures forall j :: 0 <= j < |Join(parts, sep)| ==> ok(Join(parts, sep)[j])
  {
    if |parts| > 1 {
      JoinChars(parts[1..], sep, ok);
      var r := Join(parts, sep);
      assert r == parts[0] + [sep] + Join(parts[1..], sep);
      forall j | 0 <= j < |r| ensures ok(r[j]) {
        if j < |parts[0]| {
          assert r[j] == parts[0][j];
        } else if j > |parts[0]| {
          assert r[j] == Join(parts[1..], sep)[j - |parts[0]| - 1];
        }
      }
    }
  }

  lemma {:induction false} EncodedFieldsChars(groups: seq<(string, seq<string>)>)
    ensures forall i, j :: 0 <= i < |EncodedFields(groups)| && 0 <= j < |EncodedFields(groups)[i]| ==>
              QueryChar(EncodedFields(groups)[i][j])
  {
    if groups != [] {
      EncodedFieldsChars(groups[1..]);
      EncodedValuesChars(QuotePlus(groups[0].0), groups[0].1);
      var a := EncodedValues(QuotePlus(groups[0].0), groups[0].1);
      var b := EncodedFields(groups[1..]);
      assert EncodedFields(groups) == a + b;
      forall i, j | 0 <= i < |a + b| && 0 <= j < |(a + b)[i]| ensures QueryChar((a + b)[i][j]) {
        if i >= |a| { assert (a + b)[i] == b[i - |a|]; }
      }
    }
  }

  lemma {:induction false} EncodedValuesChars(key: string, values: seq<string>)
    requires forall j :: 0 <= j < |key| ==> QueryChar(key[j])
    ensures forall i, j :: 0 <= i < |EncodedValues(key, values)| && 0 <= j < |EncodedValues(key, values)[i]| ==>
              QueryChar(EncodedValues(key, values)[i][j])
  {
    if values != [] {
      EncodedValuesChars(key, values[1..]);
      var f := key + "=" + QuotePlus(values[0]);
      forall j | 0 <= j < |f| ensures QueryChar(f[j]) {
        if j > |key| { assert f[j] == QuotePlus(values[0])[j - |key| - 1]; }
      }
      var rest := EncodedValues(key, values[1..]);
      assert EncodedValues(key, values) == [f] + rest;
      forall i, j | 0 <= i < |[f] + rest| && 0 <= j < |([f] + rest)[i]| ensures QueryChar(([f] + rest)[i][j]) {
        if i > 0 { assert ([f] + rest)[i] == rest[i - 1]; }
      }
    }
  }

  /** A normalised query consists of unreserved characters, `%XX` escapes,
      `+`, `=` and `&` only; in particular it holds no `#` and no `/`. */
  lemma NormalizedQueryChars(lib: UrlLib, query: string)
    ensures forall j :: 0 <= j < |NormalizeQuery(lib, query)| ==> QueryChar(NormalizeQuery(lib, query)[j])
    ensures '#' !in NormalizeQuery(lib, query) && '/' !in NormalizeQuery(lib, query)
  {
    var groups := Group(ParseQsl(lib, query));
    EncodedFieldsChars(groups);
    JoinChars(EncodedFields(groups), '&', QueryChar);
  }

  // ---------------------------------------------------------------------------
  // The normal form keeps the order of the query

  /** A non-empty string that percent-encoding and decoding leave alone. */
  predicate Plain(s: string) {
    s != [] && forall i :: 0 <= i < |s| ==> Unreserved(s[i])
  }

  function Field(name: string, value: string): string { name + "=" + value }

  lemma {:induction false} QuotePlusUnreserved(s: string)
    requires forall i :: 0 <= i < |s| ==> Unreserved(s[i])
    ensures QuotePlus(s) == s
  {
    if s != [] {
      QuotePlusUnreserved(s[1..]);
      assert [s[0]] + s[1..] == s;
    }
  }

  lemma DecodePlain(lib: UrlLib, s: string)
    requires Plain(s)
    ensures DecodeComponent(lib, s) == s
  {
    assert '+' !in s && '%' !in s;
    ReplaceAbsent(s, "+", " ");
  }

  /** A plain `name=value` field parses to that one pair. */
  lemma PlainField(lib: UrlLib, name: string, value: string)
    requires Plain(name) && Plain(value)
    ensures ParseField(lib, Field(name, value)) == [(name, value)]
    ensures '&' !in Field(name, value)
    ensures Split(Field(name, value), '=')[0] == name
  {
    var f := Field(name, value);
    assert '=' !in name && '=' !in value;
    assert f == name + ['='] + value;
    SplitAfterPlain(name, value, '=');
    SplitPlain(value, '=');
    var nv := Split(f, '=');
    assert nv == [name, value];
    assert nv[1..] == [value];
    DecodePlain(lib, name);
    DecodePlain(lib, value);
    assert forall j :: 0 <= j < |f| ==> f[j] == '=' || Unreserved(f[j]);
  }

  /** Two plain fields with different names come out of the normalisation
      unchanged and in their original order: `parse_qs` groups by first
      appearance and nothing sorts the names. */
  lemma TwoFieldsKeepOrder(lib: UrlLib, n1: string, v1: string, n2: string, v2: string)
    requires Plain(n1) && Plain(v1) && Plain(n2) && Plain(v2) && n1 != n2
    ensures NormalizeQuery(lib, Field(n1, v1) + "&" + Field(n2, v2)) == Field(n1, v1) + "&" + Field(n2, v2)
  {
    ParseTwoFields(lib, n1, v1, n2, v2);
    GroupTwo(n1, v1, n2, v2);
    EncodeTwo(n1, v1, n2, v2);
  }

  lemma ParseTwoFields(lib: UrlLib, n1: string, v1: string, n2: string, v2: string)
    requires Plain(n1) && Plain(v1) && Plain(n2) && Plain(v2)
    ensures ParseQsl(lib, Field(n1, v1) + "&" + Field(n2, v2)) == [(n1, v1), (n2, v2)]
  {
    var f1, f2 := Field(n1, v1), Field(n2, v2);
    PlainField(lib, n1, v1);
    PlainField(lib, n2, v2);
    assert f1 + "&" + f2 == f1 + ['&'] + f2;
    SplitAfterPlain(f1, f2, '&');
    SplitPlain(f2, '&');
    assert Split(f1 + "&" + f2, '&') == [f1, f2];
    assert [f1, f2][1..] == [f2];
    assert ParseFields(lib, [f2]) == [(n2, v2)] + ParseFields(lib, []);
  }

  lemma GroupTwo(n1: string, v1: string, n2: string, v2: string)
    requires n1 != n2
    ensures Group([(n1, v1), (n2, v2)]) == [(n1, [v1]), (n2, [v2])]
  {
    assert DropLast([(n1, v1), (n2, v2)]) == [(n1, v1)];
    assert DropLast([(n1, v1)]) == [];
    assert Group([(n1, v1)]) == [(n1, [v1])];
    assert AddValue([(n1, [v1])], n2, v2) == [(n1, [v1])] + AddValue([], n2, v2);
  }

  lemma EncodeTwo(n1: string, v1: string, n2: string, v2: string)
    requires Plain(n1) && Plain(v1) && Plain(n2) && Plain(v2)
    ensures Urlencode([(n1, [v1]), (n2, [v2])]) == Field(n1, v1) + "&" + Field(n2, v2)
  {
    var f1, f2 := Field(n1, v1), Field(n2, v2);
    QuotePlusUnreserved(n1);
    QuotePlusUnreserved(v1);
    QuotePlusUnreserved(n2);
    QuotePlusUnreserved(v2);
    assert EncodedValues(n1, [v1]) == [f1];
    assert EncodedValues(n2, [v2]) == [f2];
    assert EncodedFields([(n2, [v2])]) == [f2];
    assert EncodedFields([(n1, [v1]), (n2, [v2])]) == [f1, f2];
    assert Join([f1, f2], '&') == f1 + ['&'] + Join([f2], '&');
  }

  /** The normalisation is sensitive to field order: the same two fields in
      the other order give a different normal form, so two spellings of one
      query can be discovered as two URLs. */
  lemma QueryOrderMatters(lib: UrlLib, n1: string, v1: string, n2: string, v2: string)
    requires Plain(n1) && Plain(v1) && Plain(n2) && Plain(v2) && n1 != n2
    ensures NormalizeQuery(lib, Field(n1, v1) + "&" + Field(n2, v2))
         != NormalizeQuery(lib, Field(n2, v2) + "&" + Field(n1, v1))
  {
    var f1, f2 := Field(n1, v1), Field(n2, v2);
    TwoFieldsKeepOrder(lib, n1, v1, n2, v2);
    TwoFieldsKeepOrder(lib, n2, v2, n1, v1);
    PlainField(lib, n1, v1);
    PlainField(lib, n2, v2);
    SplitAfterPlain(f1, f2, '&');
    SplitAfterPlain(f2, f1, '&');
    assert f1 + "&" + f2 == f1 + ['&'] + f2;
    assert f2 + "&" + f1 == f2 + ['&'] + f1;
    assert Split(f1 + "&" + f2, '&')[0] == f1;
    assert Split(f2 + "&" + f1, '&')[0] == f2;
    assert f1 != f2;
  }
}
