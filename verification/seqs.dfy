/** Sequences as ordered collections without repetition, the order-keeping
    de-duplication the crawler performs against its `discovered` set, and the
    line-per-record text layout of the output file. */
module Seqs {
  import opened Text

  /** No element occurs twice. */
  predicate NoDup<T(==)>(s: seq<T>) {
    forall i, j :: 0 <= i < j < |s| ==> s[i] != s[j]
  }

  function Last<T>(s: seq<T>): T
    requires s != []
  {
    s[|s| - 1]
  }

  function DropLast<T>(s: seq<T>): seq<T>
    requires s != []
  {
    s[..|s| - 1]
  }

  /** The elements of `vs` that are new with respect to `seen`, each kept at
      its first occurrence, in the order of `vs`: what a run of "append if not
      already present" steps adds to `seen`. */
  function Dedup<T(==)>(seen: seq<T>, vs: seq<T>): (r: seq<T>)
    decreases |vs|
  {
    if vs == [] then []
    else
      var d := Dedup(seen, DropLast(vs));
      if Last(vs) in seen + d then d else d + [Last(vs)]
  }

  /** Extending `seen` by its de-duplicated new elements keeps it repetition
      free, adds exactly the elements of `vs`, and adds nothing already seen. */
  lemma {:induction false} DedupSpec<T>(seen: seq<T>, vs: seq<T>)
    requires NoDup(seen)
    ensures NoDup(seen + Dedup(seen, vs))
    ensures forall x :: x in seen + Dedup(seen, vs) <==> x in seen || x in vs
    ensures forall x :: x in Dedup(seen, vs) ==> x in vs && x !in seen
    decreases |vs|
  {
    if vs != [] {
      DedupSpec(seen, DropLast(vs));
      var d := Dedup(seen, DropLast(vs));
      assert vs == DropLast(vs) + [Last(vs)];
      if Last(vs) !in seen + d {
        assert seen + (d + [Last(vs)]) == (seen + d) + [Last(vs)];
      }
    }
  }

  /** The position of the first occurrence of `x` in `s`. */
  function IndexOf<T(==)>(s: seq<T>, x: T): (r: nat)
    requires x in s
    ensures r < |s| && s[r] == x && x !in s[..r]
  {
    if s[0] == x then 0
    else
      var r := IndexOf(s[1..], x);
      assert s[..r + 1] == [s[0]] + s[1..][..r];
      1 + r
  }

  /** Extending a sequence does not move the first occurrence of an element it holds. */
  lemma IndexOfPrefix<T>(s: seq<T>, t: seq<T>, x: T)
    requires x in s
    ensures IndexOf(s + t, x) == IndexOf(s, x)
  {
    var r := IndexOf(s, x);
    assert (s + t)[r] == x;
  }

  /** The new elements come out in the order of their first occurrences in
      `vs`; with `DedupSpec` this determines `Dedup(seen, vs)` completely. */
  lemma {:induction false} DedupOrder<T>(seen: seq<T>, vs: seq<T>)
    requires NoDup(seen)
    ensures forall x :: x in Dedup(seen, vs) ==> x in vs
    ensures forall i, j :: 0 <= i < j < |Dedup(seen, vs)| ==>
      IndexOf(vs, Dedup(seen, vs)[i]) < IndexOf(vs, Dedup(seen, vs)[j])
    decreases |vs|
  {
    if vs != [] {
      var init, u := DropLast(vs), Last(vs);
      var d := Dedup(seen, init);
      DedupOrder(seen, init);
      DedupSpec(seen, init);
      assert vs == init + [u];
      forall x | x in d ensures IndexOf(vs, x) == IndexOf(init, x) < |init| {
        IndexOfPrefix(init, [u], x);
      }
      if u !in seen + d {
        var r := d + [u];
        assert u !in init;
        assert IndexOf(vs, u) == |init|;
        forall i, j | 0 <= i < j < |r| ensures IndexOf(vs, r[i]) < IndexOf(vs, r[j]) {
          assert r[i] == d[i];
          if j < |d| {
            assert r[j] == d[j];
          }
        }
      }
    }
  }

  /** Each record followed by a newline: the text of a file written one line per record. */
  function Serialize(lines: seq<string>): (r: string)
  {
    if lines == [] then "" else lines[0] + "\n" + Serialize(lines[1..])
  }

  lemma {:induction false} SerializeAppend(a: seq<string>, b: seq<string>)
    ensures Serialize(a + b) == Serialize(a) + Serialize(b)
  {
    if a != [] {
      SerializeAppend(a[1..], b);
      assert (a + b)[1..] == a[1..] + b;
      assert Serialize(a + b) == a[0] + "\n" + Serialize(a[1..] + b);
    } else {
      assert a + b == b;
    }
  }

  /** `"\n".join(chunk) + "\n"` writes exactly the chunk's records when the
      chunk is not empty; on an empty chunk it would write one blank line. */
  lemma {:induction false} JoinedChunk(chunk: seq<string>)
    ensures chunk != [] ==> Join(chunk, '\n') + "\n" == Serialize(chunk)
    ensures chunk == [] ==> Join(chunk, '\n') + "\n" == "\n" != Serialize(chunk)
  {
    if |chunk| > 1 {
      JoinedChunk(chunk[1..]);
    }
  }

  /** The file text is the newline-join of its records and a final empty part. */
  lemma {:induction false} SerializeIsJoin(lines: seq<string>)
    ensures Serialize(lines) == Join(lines + [""], '\n')
  {
    if lines != [] {
      SerializeIsJoin(lines[1..]);
      assert (lines + [""])[1..] == lines[1..] + [""];
    }
  }

  /** Reading the file back: splitting its text at newlines gives the records,
      then the empty remainder after the last newline. */
  lemma ReadBack(lines: seq<string>)
    requires forall i :: 0 <= i < |lines| ==> '\n' !in lines[i]
    ensures Split(Serialize(lines), '\n') == lines + [""]
  {
    SerializeIsJoin(lines);
    SplitJoin(lines + [""], '\n');
  }
}
