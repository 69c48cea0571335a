/** The filtering and ordering inside `CRUSTLoader.get_c_files`. The recursive
    directory walk and the file reads are left to the caller: the input is the
    list of regular files the walk found, each with the segments of its path
    (`Path.parts`) and the text read from it. */
module Collector {
  import opened Strings
  import opened Paths
  import opened Comments
  import opened Records

  /** A regular file found under a project directory. */
  datatype SourceFile = SourceFile(parts: seq<string>, text: string)

  /** Path segments that put a file out of the corpus (an exact, case-sensitive
      match against any one segment). */
  const ExcludedSegments: seq<string> := ["test", "tests", "example", "examples", "bin", "unity"]

  /** `Path.name`: the last segment. */
  function FileName(f: SourceFile): string {
    if |f.parts| == 0 then "" else f.parts[|f.parts| - 1]
  }

  /** The two tests a walked file must pass: a `.c` or `.h` suffix, and no
      excluded segment among the parts of its path. */
  predicate IsCollected(f: SourceFile) {
    && Suffix(FileName(f)) in {".c", ".h"}
    && forall x :: x in ExcludedSegments ==> x !in f.parts
  }

  /** The record kept for a file: its name and its text with comments stripped. */
  function ToRecord(f: SourceFile): Record {
    Record(FileName(f), RemoveComments(f.text))
  }

  /** The records appended by the loop, in walk order. */
  function Kept(files: seq<SourceFile>): (r: seq<Record>)
    ensures |r| <= |files|
    ensures forall x :: x in r <==> exists f :: f in files && IsCollected(f) && x == ToRecord(f)
  {
    if |files| == 0 then []
    else
      var rest := Kept(files[1..]);
      assert files == [files[0]] + files[1..];
      if IsCollected(files[0]) then [ToRecord(files[0])] + rest else rest
  }

  /** The loop appends, file by file: the records of a walk split in two are
      the records of the first part followed by those of the second. */
  lemma {:induction false} KeptAppend(a: seq<SourceFile>, b: seq<SourceFile>)
    ensures Kept(a + b) == Kept(a) + Kept(b)
    decreases |a|
  {
    if |a| == 0 {
      assert a + b == b;
    } else {
      assert (a + b)[0] == a[0];
      assert (a + b)[1..] == a[1..] + b;
      KeptAppend(a[1..], b);
    }
  }

  /** One walked file adds exactly one record when it passes both tests, and
      none otherwise. */
  lemma KeptOne(f: SourceFile)
    ensures Kept([f]) == if IsCollected(f) then [ToRecord(f)] else []
  {
  }

  /** `get_c_files`: the kept records, sorted by file name. */
  function CollectCFiles(files: seq<SourceFile>): (r: seq<Record>)
    ensures SortedByName(r)
    ensures multiset(r) == multiset(Kept(files))
    ensures |r| <= |files|
    ensures forall x :: x in r <==> exists f :: f in files && IsCollected(f) && x == ToRecord(f)
  {
    var r := SortByName(Kept(files));
    assert |r| == |multiset(r)|;
    assert forall x :: x in r <==> x in Kept(files) by {
      forall x
        ensures x in r <==> x in Kept(files)
      {
        assert x in r <==> x in multiset(r);
      }
    }
    r
  }

  /** The filter in words: a file is collected exactly when its name has at
      least one character before a final `.c` or `.h`, and none of its path
      segments is one of the excluded names. */
  lemma CollectedExactly(f: SourceFile)
    ensures IsCollected(f) <==>
      && |FileName(f)| >= 3
      && (EndsWith(FileName(f), ".c") || EndsWith(FileName(f), ".h"))
      && forall seg :: seg in f.parts ==> seg !in ExcludedSegments
  {
    SuffixIs(FileName(f), ".c");
    SuffixIs(FileName(f), ".h");
  }

  /** Every collected record is comment-free in the sense of `RemoveComments`
      (no blank run, no terminated line comment) and has a `.c` or `.h` name. */
  lemma CollectedContentStripped(files: seq<SourceFile>)
    ensures forall x :: x in CollectCFiles(files) ==>
      NoBlankRun(x.content) && NoTerminatedLineComment(x.content) && Suffix(x.fileName) in {".c", ".h"}
  {
  }
}
