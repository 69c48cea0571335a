/** `CRUSTLoader.process_c_and_h`: every header `x.h` whose source `x.c` is in
    the same record list is folded into it; the merged record takes the name
    `x.c` and the original `x.c` is not emitted again.

    The loop walks the records in descending name order, so `x.h` is met before
    `x.c` (`"x.c" < "x.h"`), and remembers in `visited` the sources that have
    already absorbed a header. The operation is modelled for every input,
    including lists with repeated names (where the name-to-content dictionary
    keeps the last record); its properties are proved for lists with distinct
    names, which is what the collector produces when no two walked files share
    a base name. */
module Merger {
  import opened Strings
  import opened Records

  /** The marker line and the opening of the block comment that wraps the
      header text in a merged record, and the line that closes it. */
  const HeaderMarker: string := "// from header\n/*\n"
  const HeaderClose: string := "\n*/\n"

  predicate IsHeaderName(n: string) {
    EndsWith(n, ".h")
  }

  predicate IsSourceName(n: string) {
    EndsWith(n, ".c")
  }

  /** `name[:-2] + ".c"` for a header name. */
  function SourceName(h: string): string
    requires IsHeaderName(h)
  {
    h[..|h| - 2] + ".c"
  }

  /** The header name whose `SourceName` is `c`. */
  function HeaderName(c: string): string
    requires IsSourceName(c)
  {
    c[..|c| - 2] + ".h"
  }

  /** The merged layout: the marker, the header text, the closing of the
      comment, then the source text unmodified. */
  function MergedContent(header: string, source: string): (r: string)
    ensures StartsWith(r, HeaderMarker) && EndsWith(r, source)
    ensures |r| == |HeaderMarker| + |header| + |HeaderClose| + |source|
    ensures r[|HeaderMarker|..|r| - |source| - |HeaderClose|] == header
    ensures r[|r| - |source| - |HeaderClose|..|r| - |source|] == HeaderClose
  {
    var r := HeaderMarker + header + HeaderClose + source;
    assert r[|HeaderMarker|..|r| - |source| - |HeaderClose|] == header;
    assert r[|r| - |source| - |HeaderClose|..|r| - |source|] == HeaderClose;
    r
  }

  /** The loop of `process_c_and_h` over `desc` (the records in descending name
      order), given the name-to-content dictionary `sources` and the set
      `visited` of sources that already absorbed a header. */
  function MergeLoop(desc: seq<Record>, sources: map<string, string>, visited: set<string>): (out: seq<Record>)
    ensures |out| <= |desc|
    decreases |desc|
  {
    if |desc| == 0 then []
    else
      var rec := desc[0];
      if IsHeaderName(rec.fileName) then
        var base := SourceName(rec.fileName);
        if base in sources then
          [Record(base, MergedContent(rec.content, sources[base]))] + MergeLoop(desc[1..], sources, visited + {base})
        else
          [rec] + MergeLoop(desc[1..], sources, visited)
      else if rec.fileName !in visited then
        [rec] + MergeLoop(desc[1..], sources, visited)
      else
        MergeLoop(desc[1..], sources, visited)
  }

  function ProcessCAndH(rs: seq<Record>): (out: seq<Record>)
    ensures SortedByName(out)
    ensures |out| <= |rs|
  {
    var desc := SortBy(rs, true);
    assert |desc| == |multiset(desc)| == |rs|;
    var merged := MergeLoop(desc, ContentByName(rs), {});
    var out := SortByName(merged);
    assert |out| == |multiset(out)| == |merged|;
    out
  }

  // ---------------------------------------------------------------------------
  // A loop-free description of what the loop emits

  /** A header whose source is among `names`: it disappears into that source. */
  predicate Absorbed(n: string, names: set<string>) {
    IsHeaderName(n) && SourceName(n) in names
  }

  /** A source whose header is among `names`: it is emitted only merged. */
  predicate Superseded(n: string, names: set<string>) {
    IsSourceName(n) && HeaderName(n) in names
  }

  /** What the loop emits for one record, once the whole list is known. */
  function Emit(r: Record, sources: map<string, string>, names: set<string>): seq<Record> {
    if IsHeaderName(r.fileName) then
      var base := SourceName(r.fileName);
      if base in sources then [Record(base, MergedContent(r.content, sources[base]))] else [r]
    else if Superseded(r.fileName, names) then []
    else [r]
  }

  function EmitAll(desc: seq<Record>, sources: map<string, string>, names: set<string>): seq<Record> {
    if |desc| == 0 then [] else Emit(desc[0], sources, names) + EmitAll(desc[1..], sources, names)
  }

  /** The name under which a record is emitted, if it is emitted. */
  function OutName(r: Record, sources: map<string, string>): string {
    if IsHeaderName(r.fileName) && SourceName(r.fileName) in sources then SourceName(r.fileName) else r.fileName
  }

  /** `HeaderName(n)` is the name of a record still ahead in `desc`. */
  predicate HeaderPending(n: string, desc: seq<Record>) {
    IsSourceName(n) && HeaderName(n) in Names(desc)
  }

  // ---------------------------------------------------------------------------
  // Lemmas on names

  lemma NamePairing(h: string, c: string)
    requires IsHeaderName(h) && IsSourceName(c)
    ensures SourceName(h) == c <==> HeaderName(c) == h
  {
    if SourceName(h) == c {
      assert c[..|c| - 2] == h[..|h| - 2];
      assert h == h[..|h| - 2] + ".h";
    }
    if HeaderName(c) == h {
      assert c[..|c| - 2] == h[..|h| - 2];
      assert c == c[..|c| - 2] + ".c";
    }
  }

  lemma SourceOfHeader(h: string)
    requires IsHeaderName(h)
    ensures IsSourceName(SourceName(h)) && !IsHeaderName(SourceName(h))
    ensures HeaderName(SourceName(h)) == h
  {
    var c := SourceName(h);
    assert c[|c| - 2..] == ".c";
    assert c[..|c| - 2] == h[..|h| - 2];
    assert h == h[..|h| - 2] + ".h";
  }

  lemma HeaderOfSource(c: string)
    requires IsSourceName(c)
    ensures IsHeaderName(HeaderName(c)) && !IsSourceName(HeaderName(c))
    ensures SourceName(HeaderName(c)) == c
  {
    var h := HeaderName(c);
    assert h[|h| - 2..] == ".h";
    assert h[..|h| - 2] == c[..|c| - 2];
    assert c == c[..|c| - 2] + ".c";
  }

  /** A source name sorts strictly before the name of its header. */
  lemma SourceBeforeItsHeader(c: string)
    requires IsSourceName(c)
    ensures LexLess(c, HeaderName(c))
  {
    var p := c[..|c| - 2];
    assert c == p + ".c";
    SourceSortsBeforeHeader(p);
  }

  lemma DistinctTail(desc: seq<Record>)
    requires |desc| > 0 && DistinctNames(desc)
    ensures DistinctNames(desc[1..])
    ensures desc[0].fileName !in Names(desc[1..])
    ensures Names(desc) == {desc[0].fileName} + Names(desc[1..])
  {
    var t := desc[1..];
    forall i, j | 0 <= i < j < |t|
      ensures t[i].fileName != t[j].fileName
    {
      assert t[i] == desc[i + 1] && t[j] == desc[j + 1];
    }
    forall k | 0 <= k < |t|
      ensures t[k].fileName != desc[0].fileName
    {
      assert t[k] == desc[k + 1];
    }
    assert desc == [desc[0]] + t;
  }

  lemma SortedTail(desc: seq<Record>, descending: bool)
    requires |desc| > 0 && SortedBy(desc, descending)
    ensures SortedBy(desc[1..], descending)
  {
    var t := desc[1..];
    forall i, j | 0 <= i < j < |t|
      ensures InOrder(t[i].fileName, t[j].fileName, descending)
    {
      assert t[i] == desc[i + 1] && t[j] == desc[j + 1];
    }
  }

  /** In descending order nothing after a source is its header. */
  lemma NoHeaderBehind(desc: seq<Record>)
    requires |desc| > 0 && SortedBy(desc, true) && DistinctNames(desc)
    requires !IsHeaderName(desc[0].fileName)
    ensures !HeaderPending(desc[0].fileName, desc)
  {
    var n := desc[0].fileName;
    if HeaderPending(n, desc) {
      HeaderOfSource(n);
      var r :| r in desc && r.fileName == HeaderName(n);
      var i :| 0 <= i < |desc| && desc[i] == r;
      assert InOrder(desc[0].fileName, desc[i].fileName, true);
      SourceBeforeItsHeader(n);
      LexLessAsymmetric(n, HeaderName(n));
    }
  }

  /** Removing the first record from `desc` removes only its own name from the
      pending headers. */
  lemma PendingAfterPop(n: string, desc: seq<Record>)
    requires |desc| > 0
    ensures HeaderPending(n, desc) <==>
      HeaderPending(n, desc[1..]) || (IsSourceName(n) && HeaderName(n) == desc[0].fileName)
  {
    assert desc == [desc[0]] + desc[1..];
    assert Names(desc) == {desc[0].fileName} + Names(desc[1..]);
  }

  /** What `visited` holds at each step of the loop: a source not yet passed
      has been visited exactly when its header exists and was already passed. */
  predicate VisitedInvariant(desc: seq<Record>, visited: set<string>, names: set<string>) {
    forall r :: r in desc && !IsHeaderName(r.fileName) ==>
      (r.fileName in visited <==> Superseded(r.fileName, names) && !HeaderPending(r.fileName, desc))
  }

  /** The loop emits, record by record, what `Emit` describes. */
  lemma {:induction false} LoopIsEmitAll(desc: seq<Record>, sources: map<string, string>, visited: set<string>, names: set<string>)
    requires sources.Keys == names
    requires Names(desc) <= names
    requires SortedBy(desc, true) && DistinctNames(desc)
    requires VisitedInvariant(desc, visited, names)
    ensures MergeLoop(desc, sources, visited) == EmitAll(desc, sources, names)
    decreases |desc|
  {
    if |desc| > 0 {
      var rec := desc[0];
      var tail := desc[1..];
      DistinctTail(desc);
      SortedTail(desc, true);
      assert rec in desc;
      if IsHeaderName(rec.fileName) {
        var base := SourceName(rec.fileName);
        SourceOfHeader(rec.fileName);
        if base in sources {
          var visited' := visited + {base};
          forall r | r in tail && !IsHeaderName(r.fileName)
            ensures r.fileName in visited' <==> Superseded(r.fileName, names) && !HeaderPending(r.fileName, tail)
          {
            assert r in desc;
            PendingAfterPop(r.fileName, desc);
            if IsSourceName(r.fileName) {
              NamePairing(rec.fileName, r.fileName);
            }
          }
          LoopIsEmitAll(tail, sources, visited', names);
        } else {
          forall r | r in tail && !IsHeaderName(r.fileName)
            ensures r.fileName in visited <==> Superseded(r.fileName, names) && !HeaderPending(r.fileName, tail)
          {
            assert r in desc;
            PendingAfterPop(r.fileName, desc);
            if IsSourceName(r.fileName) {
              NamePairing(rec.fileName, r.fileName);
            }
          }
          LoopIsEmitAll(tail, sources, visited, names);
        }
      } else {
        NoHeaderBehind(desc);
        forall r | r in tail && !IsHeaderName(r.fileName)
          ensures r.fileName in visited <==> Superseded(r.fileName, names) && !HeaderPending(r.fileName, tail)
        {
          assert r in desc;
          PendingAfterPop(r.fileName, desc);
          if IsSourceName(r.fileName) {
            HeaderOfSource(r.fileName);
          }
        }
        LoopIsEmitAll(tail, sources, visited, names);
      }
    }
  }

  lemma {:induction false} EmitAllMembers(desc: seq<Record>, sources: map<string, string>, names: set<string>)
    ensures forall x :: x in EmitAll(desc, sources, names) <==> exists r :: r in desc && x in Emit(r, sources, names)
    decreases |desc|
  {
    if |desc| > 0 {
      EmitAllMembers(desc[1..], sources, names);
      assert desc == [desc[0]] + desc[1..];
    }
  }

  /** Each record is emitted at most once, under `OutName`. */
  lemma EmitShape(r: Record, sources: map<string, string>, names: set<string>)
    ensures |Emit(r, sources, names)| <= 1
    ensures forall x :: x in Emit(r, sources, names) ==> x.fileName == OutName(r, sources)
  {
  }

  /** No two emitted records share a name. */
  lemma {:induction false} EmitAllDistinct(desc: seq<Record>, sources: map<string, string>, names: set<string>)
    requires sources.Keys == names
    requires Names(desc) <= names
    requires DistinctNames(desc)
    ensures DistinctNames(EmitAll(desc, sources, names))
    decreases |desc|
  {
    if |desc| > 0 {
      var rec := desc[0];
      var tail := desc[1..];
      DistinctTail(desc);
      assert rec in desc;
      EmitAllDistinct(tail, sources, names);
      EmitAllMembers(tail, sources, names);
      var rest := EmitAll(tail, sources, names);
      EmitShape(rec, sources, names);
      var head := Emit(rec, sources, names);
      if |head| == 1 {
        var n0 := OutName(rec, sources);
        assert head[0].fileName == n0;
        forall x | x in rest
          ensures x.fileName != n0
        {
          var r :| r in tail && x in Emit(r, sources, names);
          EmitShape(r, sources, names);
          assert r in desc;
          assert r.fileName != rec.fileName;
          if IsHeaderName(rec.fileName) {
            SourceOfHeader(rec.fileName);
          }
          if IsHeaderName(r.fileName) {
            SourceOfHeader(r.fileName);
          }
        }
        ConsDistinct(head[0], rest);
        assert head == [head[0]];
      } else {
        assert head == [];
      }
      assert EmitAll(desc, sources, names) == head + rest;
    }
  }

  // ---------------------------------------------------------------------------
  // The properties of process_c_and_h

  /** The records `process_c_and_h` returns are exactly what `Emit` gives for the
      input records, in ascending order and under distinct names. */
  lemma ProcessMembers(rs: seq<Record>)
    requires DistinctNames(rs)
    ensures DistinctNames(ProcessCAndH(rs))
    ensures forall x :: x in ProcessCAndH(rs) <==>
      exists r :: r in rs && x in Emit(r, ContentByName(rs), Names(rs))
  {
    var desc := SortBy(rs, true);
    var sources := ContentByName(rs);
    var names := Names(rs);
    NamesOfPermutation(desc, rs);
    SortKeepsDistinct(rs, true);
    assert VisitedInvariant(desc, {}, names);
    LoopIsEmitAll(desc, sources, {}, names);
    EmitAllDistinct(desc, sources, names);
    EmitAllMembers(desc, sources, names);
    var merged := MergeLoop(desc, sources, {});
    var out := ProcessCAndH(rs);
    assert out == SortByName(merged);
    forall x
      ensures x in out <==> exists r :: r in rs && x in Emit(r, sources, names)
    {
      assert x in out <==> x in multiset(out);
      assert x in merged <==> x in multiset(merged);
      forall r | r in desc
        ensures r in rs
      {
        assert r in multiset(desc);
      }
      forall r | r in rs
        ensures r in desc
      {
        assert r in multiset(rs);
      }
    }
  }

  /** The names that come out are the input names minus every header whose
      source is present; the output is sorted and has no repeated name. */
  lemma ProcessNames(rs: seq<Record>)
    requires DistinctNames(rs)
    ensures SortedByName(ProcessCAndH(rs)) && DistinctNames(ProcessCAndH(rs))
    ensures Names(ProcessCAndH(rs)) == set n | n in Names(rs) && !Absorbed(n, Names(rs))
  {
    ProcessMembers(rs);
    EmittedNames(rs, ProcessCAndH(rs), ContentByName(rs));
  }

  lemma EmittedNames(rs: seq<Record>, out: seq<Record>, sources: map<string, string>)
    requires sources.Keys == Names(rs)
    requires forall x :: x in out <==> exists r :: r in rs && x in Emit(r, sources, Names(rs))
    ensures Names(out) == set n | n in Names(rs) && !Absorbed(n, Names(rs))
  {
    var names := Names(rs);
    forall n | n in Names(out)
      ensures n in names && !Absorbed(n, names)
    {
      var x :| x in out && x.fileName == n;
      var r :| r in rs && x in Emit(r, sources, names);
      if IsHeaderName(r.fileName) {
        SourceOfHeader(r.fileName);
      }
    }
    forall n | n in names && !Absorbed(n, names)
      ensures n in Names(out)
    {
      var r :| r in rs && r.fileName == n;
      if !IsHeaderName(n) && Superseded(n, names) {
        var h :| h in rs && h.fileName == HeaderName(n);
        HeaderOfSource(n);
        var x := Emit(h, sources, names)[0];
        assert x in out;
      } else {
        var x := Emit(r, sources, names)[0];
        assert x in out;
      }
    }
  }

  /** Each header whose source is present comes out merged into it, named after
      the source, with content `MergedContent(header, source)`; every other
      record, neither absorbed nor superseded, comes out unchanged; and nothing
      else comes out. */
  lemma ProcessContents(rs: seq<Record>)
    requires DistinctNames(rs)
    ensures forall h, c :: h in rs && c in rs && IsHeaderName(h.fileName) && c.fileName == SourceName(h.fileName) ==>
      Record(c.fileName, MergedContent(h.content, c.content)) in ProcessCAndH(rs)
    ensures forall r :: r in rs && !Absorbed(r.fileName, Names(rs)) && !Superseded(r.fileName, Names(rs)) ==>
      r in ProcessCAndH(rs)
    ensures forall x :: x in ProcessCAndH(rs) ==>
      || (x in rs && !Absorbed(x.fileName, Names(rs)) && !Superseded(x.fileName, Names(rs)))
      || exists h, c :: h in rs && c in rs && IsHeaderName(h.fileName) && c.fileName == SourceName(h.fileName) &&
          x == Record(c.fileName, MergedContent(h.content, c.content))
  {
    ProcessMembers(rs);
    EmittedContents(rs, ProcessCAndH(rs), ContentByName(rs));
  }

  /** `ProcessContents` for any `out` holding exactly the emitted records. */
  lemma EmittedContents(rs: seq<Record>, out: seq<Record>, sources: map<string, string>)
    requires DistinctNames(rs)
    requires sources.Keys == Names(rs)
    requires forall n :: n in sources ==> Record(n, sources[n]) in rs
    requires forall r :: r in rs ==> sources[r.fileName] == r.content
    requires forall x :: x in out <==> exists r :: r in rs && x in Emit(r, sources, Names(rs))
    ensures forall h, c :: h in rs && c in rs && IsHeaderName(h.fileName) && c.fileName == SourceName(h.fileName) ==>
      Record(c.fileName, MergedContent(h.content, c.content)) in out
    ensures forall r :: r in rs && !Absorbed(r.fileName, Names(rs)) && !Superseded(r.fileName, Names(rs)) ==>
      r in out
    ensures forall x :: x in out ==>
      || (x in rs && !Absorbed(x.fileName, Names(rs)) && !Superseded(x.fileName, Names(rs)))
      || exists h, c :: h in rs && c in rs && IsHeaderName(h.fileName) && c.fileName == SourceName(h.fileName) &&
          x == Record(c.fileName, MergedContent(h.content, c.content))
  {
    EmittedMerged(rs, out, sources);
    EmittedUnchanged(rs, out, sources);
    EmittedOrigins(rs, out, sources);
  }

  lemma EmittedMerged(rs: seq<Record>, out: seq<Record>, sources: map<string, string>)
    requires DistinctNames(rs)
    requires sources.Keys == Names(rs)
    requires forall n :: n in sources ==> Record(n, sources[n]) in rs
    requires forall r :: r in rs ==> sources[r.fileName] == r.content
    requires forall x :: x in out <==> exists r :: r in rs && x in Emit(r, sources, Names(rs))
    ensures forall h, c :: h in rs && c in rs && IsHeaderName(h.fileName) && c.fileName == SourceName(h.fileName) ==>
      Record(c.fileName, MergedContent(h.content, c.content)) in out
  {
    forall h, c | h in rs && c in rs && IsHeaderName(h.fileName) && c.fileName == SourceName(h.fileName)
      ensures Record(c.fileName, MergedContent(h.content, c.content)) in out
    {
      assert Emit(h, sources, Names(rs)) == [Record(c.fileName, MergedContent(h.content, c.content))];
    }
  }

  lemma EmittedUnchanged(rs: seq<Record>, out: seq<Record>, sources: map<string, string>)
    requires DistinctNames(rs)
    requires sources.Keys == Names(rs)
    requires forall n :: n in sources ==> Record(n, sources[n]) in rs
    requires forall r :: r in rs ==> sources[r.fileName] == r.content
    requires forall x :: x in out <==> exists r :: r in rs && x in Emit(r, sources, Names(rs))
    ensures forall r :: r in rs && !Absorbed(r.fileName, Names(rs)) && !Superseded(r.fileName, Names(rs)) ==>
      r in out
  {
    forall r | r in rs && !Absorbed(r.fileName, Names(rs)) && !Superseded(r.fileName, Names(rs))
      ensures r in out
    {
      assert Emit(r, sources, Names(rs)) == [r];
    }
  }

  lemma EmittedOrigins(rs: seq<Record>, out: seq<Record>, sources: map<string, string>)
    requires DistinctNames(rs)
    requires sources.Keys == Names(rs)
    requires forall n :: n in sources ==> Record(n, sources[n]) in rs
    requires forall r :: r in rs ==> sources[r.fileName] == r.content
    requires forall x :: x in out <==> exists r :: r in rs && x in Emit(r, sources, Names(rs))
    ensures forall x :: x in out ==>
      || (x in rs && !Absorbed(x.fileName, Names(rs)) && !Superseded(x.fileName, Names(rs)))
      || exists h, c :: h in rs && c in rs && IsHeaderName(h.fileName) && c.fileName == SourceName(h.fileName) &&
          x == Record(c.fileName, MergedContent(h.content, c.content))
  {
    var names := Names(rs);
    forall x | x in out
      ensures || (x in rs && !Absorbed(x.fileName, names) && !Superseded(x.fileName, names))
              || exists h, c :: h in rs && c in rs && IsHeaderName(h.fileName) && c.fileName == SourceName(h.fileName) &&
                   x == Record(c.fileName, MergedContent(h.content, c.content))
    {
      var r :| r in rs && x in Emit(r, sources, names);
      if IsHeaderName(r.fileName) && SourceName(r.fileName) in sources {
        var c := Record(SourceName(r.fileName), sources[SourceName(r.fileName)]);
        assert c in rs;
      } else if IsHeaderName(r.fileName) {
        SourceOfHeader(r.fileName);
      } else {
        assert x == r;
      }
    }
  }

  /** A source and its header: `foo.c` and `foo.h` come out as one
      record `foo.c` holding both texts. */
  lemma FooMerges(c: string, h: string)
    ensures ProcessCAndH([Record("foo.c", c), Record("foo.h", h)]) == [Record("foo.c", MergedContent(h, c))]
  {
    var rs := [Record("foo.c", c), Record("foo.h", h)];
    FooFacts(rs, c, h);
    ProcessNames(rs);
    ProcessContents(rs);
    SingleNamed(ProcessCAndH(rs), Record("foo.c", MergedContent(h, c)));
  }

  lemma FooFacts(rs: seq<Record>, c: string, h: string)
    requires rs == [Record("foo.c", c), Record("foo.h", h)]
    ensures DistinctNames(rs)
    ensures IsHeaderName("foo.h") && SourceName("foo.h") == "foo.c"
    ensures (set n | n in Names(rs) && !Absorbed(n, Names(rs))) == {"foo.c"}
  {
    assert "foo.h"[..3] == "foo";
    assert !IsHeaderName("foo.c");
    assert Names(rs) == {"foo.c", "foo.h"};
  }

  /** A list with distinct names whose only name is that of `m`, and which
      holds `m`, is `[m]`. */
  lemma SingleNamed(out: seq<Record>, m: Record)
    requires DistinctNames(out) && Names(out) == {m.fileName} && m in out
    ensures out == [m]
  {
    assert out[0].fileName in Names(out) && out[|out| - 1].fileName in Names(out);
  }
}
