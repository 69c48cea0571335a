/** `CRUSTLoader.load_rust_interfaces` and `get_interface_pairs`: for each
    project, the merged C records are looked up by file-name stem, and every
    interface stub whose stem is found yields one (C text, stub text) pair.
    Listing the projects and the interface directory, and reading the stubs,
    are left to the caller; projects come in the order given. */
module Matcher {
  import opened Strings
  import opened Paths
  import opened Records
  import opened Collector
  import opened Merger

  /** One training example before serialisation: `(c_file, r_file)`. */
  datatype Pair = Pair(ctext: string, rtext: string)

  /** A project as the loader sees it: the regular files under its C directory
      and the files of its interface directory (none when that directory does
      not exist), each with its name and raw text. */
  datatype Project = Project(name: string, cFiles: seq<SourceFile>, interfaceFiles: seq<Record>)

  /** The files the glob `*.rs` selects, in listing order. */
  function RustFiles(listing: seq<Record>): (r: seq<Record>)
    ensures forall x :: x in r <==> x in listing && EndsWith(x.fileName, ".rs")
  {
    if |listing| == 0 then []
    else
      assert listing == [listing[0]] + listing[1..];
      (if EndsWith(listing[0].fileName, ".rs") then [listing[0]] else []) + RustFiles(listing[1..])
  }

  /** The glob goes through the listing in order: the stubs of a listing split
      in two are those of the first part followed by those of the second. */
  lemma {:induction false} RustFilesAppend(a: seq<Record>, b: seq<Record>)
    ensures RustFiles(a + b) == RustFiles(a) + RustFiles(b)
    decreases |a|
  {
    if |a| == 0 {
      assert a + b == b;
    } else {
      assert (a + b)[0] == a[0];
      assert (a + b)[1..] == a[1..] + b;
      RustFilesAppend(a[1..], b);
    }
  }

  /** One listed file is selected, once and unmodified, exactly when its name
      ends in `.rs`. */
  lemma RustFilesOne(x: Record)
    ensures RustFiles([x]) == if EndsWith(x.fileName, ".rs") then [x] else []
  {
  }

  /** `load_rust_interfaces`: the `*.rs` stubs, unmodified, sorted by file name. */
  function LoadInterfaces(listing: seq<Record>): (r: seq<Record>)
    ensures SortedByName(r)
    ensures multiset(r) == multiset(RustFiles(listing))
    ensures forall x :: x in r <==> x in listing && EndsWith(x.fileName, ".rs")
  {
    var r := SortByName(RustFiles(listing));
    assert forall x :: x in r <==> x in multiset(RustFiles(listing));
    r
  }

  /** `{Path(r["file_name"]).stem: r for r in c_recs}`, keeping only the content
      the matcher reads; of two records with one stem the last wins. */
  function ContentByStem(cRecs: seq<Record>): (m: map<string, string>)
    ensures m.Keys == set r | r in cRecs :: Stem(r.fileName)
    ensures forall k :: k in m ==> exists r :: r in cRecs && Stem(r.fileName) == k && r.content == m[k]
  {
    ContentByKey(cRecs, Stem)
  }

  /** The pair a stub yields under `cmap`: one, or none when its stem is absent. */
  function StubPairs(cmap: map<string, string>, stub: Record): seq<Pair> {
    var stem := Stem(stub.fileName);
    if stem in cmap then [Pair(cmap[stem], stub.content)] else []
  }

  /** The inner loop of `get_interface_pairs`, over the stubs in order. */
  function MatchStubs(cmap: map<string, string>, stubs: seq<Record>): (r: seq<Pair>)
    ensures |r| <= |stubs|
    ensures forall p :: p in r ==>
      exists s :: s in stubs && Stem(s.fileName) in cmap && p == Pair(cmap[Stem(s.fileName)], s.content)
  {
    if |stubs| == 0 then []
    else
      var rest := MatchStubs(cmap, stubs[1..]);
      assert stubs == [stubs[0]] + stubs[1..];
      StubPairs(cmap, stubs[0]) + rest
  }

  /** The merged C records of one project. */
  function MergedRecords(p: Project): (r: seq<Record>)
    ensures SortedByName(r)
    ensures |r| <= |p.cFiles|
  {
    ProcessCAndH(CollectCFiles(p.cFiles))
  }

  /** The pairs one project contributes: each comes from a stub of the project
      and a merged C record of the project with the same stem. */
  function ProjectPairs(p: Project): (r: seq<Pair>)
    ensures |r| <= |LoadInterfaces(p.interfaceFiles)|
    ensures forall pr :: pr in r ==>
      exists c, s :: c in MergedRecords(p) && s in LoadInterfaces(p.interfaceFiles) &&
        Stem(c.fileName) == Stem(s.fileName) && pr == Pair(c.content, s.content)
  {
    var cRecs := MergedRecords(p);
    var stubs := LoadInterfaces(p.interfaceFiles);
    MatchOrigins(cRecs, stubs);
    MatchStubs(ContentByStem(cRecs), stubs)
  }

  lemma MatchOrigins(cRecs: seq<Record>, stubs: seq<Record>)
    ensures forall pr :: pr in MatchStubs(ContentByStem(cRecs), stubs) ==>
      exists c, s :: c in cRecs && s in stubs && Stem(c.fileName) == Stem(s.fileName) && pr == Pair(c.content, s.content)
  {
    var cmap := ContentByStem(cRecs);
    forall pr | pr in MatchStubs(cmap, stubs)
      ensures exists c, s :: c in cRecs && s in stubs && Stem(c.fileName) == Stem(s.fileName) && pr == Pair(c.content, s.content)
    {
      var s :| s in stubs && Stem(s.fileName) in cmap && pr == Pair(cmap[Stem(s.fileName)], s.content);
      var c :| c in cRecs && Stem(c.fileName) == Stem(s.fileName) && c.content == cmap[Stem(s.fileName)];
    }
  }

  /** `get_interface_pairs`: the projects' pairs, project after project. */
  function InterfacePairs(projects: seq<Project>): (r: seq<Pair>)
    ensures forall pr :: pr in r ==> exists p :: p in projects && pr in ProjectPairs(p)
    ensures forall p, pr :: p in projects && pr in ProjectPairs(p) ==> pr in r
  {
    if |projects| == 0 then []
    else
      assert projects == [projects[0]] + projects[1..];
      ProjectPairs(projects[0]) + InterfacePairs(projects[1..])
  }

  /** The pairs come project after project: the pairs of a list of projects
      split in two are those of the first part followed by those of the
      second. */
  lemma {:induction false} InterfacePairsAppend(a: seq<Project>, b: seq<Project>)
    ensures InterfacePairs(a + b) == InterfacePairs(a) + InterfacePairs(b)
    decreases |a|
  {
    if |a| == 0 {
      assert a + b == b;
    } else {
      var ab := a + b;
      assert ab[0] == a[0];
      assert ab[1..] == a[1..] + b;
      InterfacePairsAppend(a[1..], b);
      PairsRegroup(InterfacePairs(ab), ProjectPairs(a[0]), InterfacePairs(a[1..] + b),
        InterfacePairs(a[1..]), InterfacePairs(b));
    }
  }

  lemma PairsRegroup(whole: seq<Pair>, first: seq<Pair>, tail: seq<Pair>, x: seq<Pair>, y: seq<Pair>)
    requires whole == first + tail && tail == x + y
    ensures whole == (first + x) + y
  {
  }

  /** One project contributes exactly its own pairs. */
  lemma InterfacePairsOne(p: Project)
    ensures InterfacePairs([p]) == ProjectPairs(p)
  {
  }

  // ---------------------------------------------------------------------------
  // Lemmas

  /** The pairs follow the stub order: matching a concatenation of stub lists
      concatenates their pairs. */
  lemma {:induction false} MatchStubsAppend(cmap: map<string, string>, a: seq<Record>, b: seq<Record>)
    ensures MatchStubs(cmap, a + b) == MatchStubs(cmap, a) + MatchStubs(cmap, b)
    decreases |a|
  {
    if |a| > 0 {
      assert (a + b)[1..] == a[1..] + b;
      MatchStubsAppend(cmap, a[1..], b);
    } else {
      assert a + b == b;
    }
  }

  /** Stubs whose stem no C record has add nothing, wherever they stand. */
  lemma {:induction false} UnmatchedStubsAddNothing(cmap: map<string, string>, stubs: seq<Record>)
    requires forall s :: s in stubs ==> Stem(s.fileName) !in cmap
    ensures MatchStubs(cmap, stubs) == []
    decreases |stubs|
  {
    if |stubs| > 0 {
      assert stubs[0] in stubs;
      assert forall s :: s in stubs[1..] ==> s in stubs;
      UnmatchedStubsAddNothing(cmap, stubs[1..]);
    }
  }

  /** Every stub yields a pair exactly when every stub's stem is matched; the
      `i`-th pair then carries the `i`-th stub. */
  lemma {:induction false} AllStubsMatched(cmap: map<string, string>, stubs: seq<Record>)
    ensures |MatchStubs(cmap, stubs)| == |stubs| <==> forall s :: s in stubs ==> Stem(s.fileName) in cmap
    ensures (forall s :: s in stubs ==> Stem(s.fileName) in cmap) ==>
      forall i :: 0 <= i < |stubs| ==> MatchStubs(cmap, stubs)[i].rtext == stubs[i].content
    decreases |stubs|
  {
    if |stubs| > 0 {
      var tail := stubs[1..];
      AllStubsMatched(cmap, tail);
      assert stubs == [stubs[0]] + tail;
      assert forall s :: s in stubs <==> s == stubs[0] || s in tail;
      var rest := MatchStubs(cmap, tail);
      if Stem(stubs[0].fileName) in cmap {
        forall i | 0 < i < |stubs| && (forall s :: s in stubs ==> Stem(s.fileName) in cmap)
          ensures MatchStubs(cmap, stubs)[i].rtext == stubs[i].content
        {
          assert MatchStubs(cmap, stubs)[i] == rest[i - 1];
          assert stubs[i] == tail[i - 1];
        }
      }
    }
  }

  /** Two distinctly named records with the same name are the same record. */
  lemma SameNameSameRecord(rs: seq<Record>, a: Record, b: Record)
    requires DistinctNames(rs) && a in rs && b in rs && a.fileName == b.fileName
    ensures a == b
  {
    var i :| 0 <= i < |rs| && rs[i] == a;
    var j :| 0 <= j < |rs| && rs[j] == b;
  }

  /** After merging, the collector's records have pairwise different stems, so
      the stem dictionary loses nothing: `x.c` and `x.h` never both survive. */
  lemma MergedStemsDistinct(files: seq<SourceFile>)
    requires DistinctNames(CollectCFiles(files))
    ensures forall a, b ::
      (a in ProcessCAndH(CollectCFiles(files)) && b in ProcessCAndH(CollectCFiles(files)) &&
       Stem(a.fileName) == Stem(b.fileName)) ==> a == b
  {
    var rs := CollectCFiles(files);
    var out := ProcessCAndH(rs);
    ProcessNames(rs);
    forall a, b | a in out && b in out && Stem(a.fileName) == Stem(b.fileName)
      ensures a == b
    {
      assert a.fileName in Names(out) && b.fileName in Names(out);
      SuffixedNamesShareStem(rs, a.fileName, b.fileName);
      SameNameSameRecord(out, a, b);
    }
  }

  /** Two surviving names with one stem are one name. */
  lemma SuffixedNamesShareStem(rs: seq<Record>, n1: string, n2: string)
    requires forall x :: x in rs ==> Suffix(x.fileName) in {".c", ".h"}
    requires n1 in Names(rs) && !Absorbed(n1, Names(rs))
    requires n2 in Names(rs) && !Absorbed(n2, Names(rs))
    requires Stem(n1) == Stem(n2)
    ensures n1 == n2
  {
    var x1 :| x1 in rs && x1.fileName == n1;
    var x2 :| x2 in rs && x2.fileName == n2;
    StemThenSuffix(n1);
    StemThenSuffix(n2);
    if Suffix(n1) == ".h" && Suffix(n2) == ".c" {
      HeaderOfItsSource(n1, n2, Names(rs));
    } else if Suffix(n1) == ".c" && Suffix(n2) == ".h" {
      HeaderOfItsSource(n2, n1, Names(rs));
    }
  }

  /** A `.h` name and a `.c` name with one stem: the header is absorbed by
      any name set holding the source. */
  lemma HeaderOfItsSource(h: string, c: string, names: set<string>)
    requires Suffix(h) == ".h" && Suffix(c) == ".c" && Stem(h) == Stem(c)
    requires c in names
    ensures Absorbed(h, names)
  {
    SuffixIs(h, ".h");
    SuffixIs(c, ".c");
    assert h[..|h| - 2] == c[..|c| - 2];
    assert c == c[..|c| - 2] + ".c";
  }

  /** For a project whose collected files have distinct names, the C text of
      each pair is that of the one merged record sharing the stub's stem. */
  lemma PairsUseTheMatchingRecord(p: Project)
    requires DistinctNames(CollectCFiles(p.cFiles))
    ensures forall pr :: pr in ProjectPairs(p) ==>
      exists c, s :: c in MergedRecords(p) && s in LoadInterfaces(p.interfaceFiles) &&
        Stem(c.fileName) == Stem(s.fileName) && pr == Pair(c.content, s.content) &&
        forall c' :: c' in MergedRecords(p) && Stem(c'.fileName) == Stem(s.fileName) ==> c' == c
  {
    MergedStemsDistinct(p.cFiles);
  }

  /** A project whose only stub `bar.rs` has no C
      file of stem `bar` contributes no pair. */
  lemma BarHasNoPairs(stub: string)
    ensures ProjectPairs(Project("bar", [], [Record("bar.rs", stub)])) == []
  {
    assert Kept([]) == [];
  }
}
