/** The `{"file_name": ..., "content": ...}` dictionaries the loader passes
    around, Python's stable `sorted(..., key=file_name)` on them (in both
    directions), and the dictionaries the loader builds from a record list. */
module Records {
  import opened Strings

  datatype Record = Record(fileName: string, content: string)

  function Names(rs: seq<Record>): set<string> {
    set r | r in rs :: r.fileName
  }

  /** No file name occurs twice. */
  predicate DistinctNames(rs: seq<Record>) {
    forall i, j :: 0 <= i < j < |rs| ==> rs[i].fileName != rs[j].fileName
  }

  /** `a` may precede `b` in a list sorted by name, ascending or descending. */
  predicate InOrder(a: string, b: string, descending: bool) {
    if descending then LexLe(b, a) else LexLe(a, b)
  }

  predicate SortedBy(rs: seq<Record>, descending: bool) {
    forall i, j :: 0 <= i < j < |rs| ==> InOrder(rs[i].fileName, rs[j].fileName, descending)
  }

  predicate SortedByName(rs: seq<Record>) {
    SortedBy(rs, false)
  }

  lemma InOrderTotal(a: string, b: string, descending: bool)
    ensures InOrder(a, b, descending) || InOrder(b, a, descending)
  {
    LexLessTotal(a, b);
  }

  lemma InOrderTransitive(a: string, b: string, c: string, descending: bool)
    requires InOrder(a, b, descending) && InOrder(b, c, descending)
    ensures InOrder(a, c, descending)
  {
    if descending {
      LexLeTransitive(c, b, a);
    } else {
      LexLeTransitive(a, b, c);
    }
  }

  /** Inserts `x` in front of the first element it may precede, so that of two
      equally named records the earlier one stays first. */
  function Insert(x: Record, s: seq<Record>, descending: bool): (r: seq<Record>)
    requires SortedBy(s, descending)
    ensures SortedBy(r, descending)
    ensures multiset(r) == multiset(s) + multiset{x}
  {
    if |s| == 0 || InOrder(x.fileName, s[0].fileName, descending) then
      InsertFrontSorted(x, s, descending);
      [x] + s
    else
      var t := Insert(x, s[1..], descending);
      InsertBehindSorted(x, s, t, descending);
      assert s == [s[0]] + s[1..];
      [s[0]] + t
  }

  /** `sorted(rs, key=file_name, reverse=descending)`, as an insertion sort. */
  function SortBy(rs: seq<Record>, descending: bool): (r: seq<Record>)
    ensures SortedBy(r, descending)
    ensures multiset(r) == multiset(rs)
  {
    if |rs| == 0 then []
    else
      assert rs == [rs[0]] + rs[1..];
      Insert(rs[0], SortBy(rs[1..], descending), descending)
  }

  /** Python's `sorted(rs, key=lambda d: d["file_name"])`: ascending by name,
      a permutation of its input that keeps names and their distinctness. */
  function SortByName(rs: seq<Record>): (r: seq<Record>)
    ensures SortedByName(r)
    ensures multiset(r) == multiset(rs)
    ensures Names(r) == Names(rs)
    ensures DistinctNames(rs) ==> DistinctNames(r)
  {
    var r := SortBy(rs, false);
    NamesOfPermutation(r, rs);
    SortKeepsDistinct(rs, false);
    r
  }

  lemma ConsSorted(y: Record, t: seq<Record>, descending: bool)
    requires SortedBy(t, descending)
    requires forall z :: z in t ==> InOrder(y.fileName, z.fileName, descending)
    ensures SortedBy([y] + t, descending)
  {
    var r := [y] + t;
    forall i, j | 0 <= i < j < |r|
      ensures InOrder(r[i].fileName, r[j].fileName, descending)
    {
      if i == 0 {
        assert r[j] in t;
      } else {
        assert r[i] == t[i - 1] && r[j] == t[j - 1];
      }
    }
  }

  lemma InsertFrontSorted(x: Record, s: seq<Record>, descending: bool)
    requires SortedBy(s, descending)
    requires |s| == 0 || InOrder(x.fileName, s[0].fileName, descending)
    ensures SortedBy([x] + s, descending)
  {
    forall z | z in s
      ensures InOrder(x.fileName, z.fileName, descending)
    {
      var k :| 0 <= k < |s| && s[k] == z;
      if k > 0 {
        InOrderTransitive(x.fileName, s[0].fileName, z.fileName, descending);
      }
    }
    ConsSorted(x, s, descending);
  }

  lemma InsertBehindSorted(x: Record, s: seq<Record>, t: seq<Record>, descending: bool)
    requires SortedBy(s, descending) && SortedBy(t, descending)
    requires |s| > 0 && !InOrder(x.fileName, s[0].fileName, descending)
    requires multiset(t) == multiset(s[1..]) + multiset{x}
    ensures SortedBy([s[0]] + t, descending)
  {
    InOrderTotal(x.fileName, s[0].fileName, descending);
    forall z | z in t
      ensures InOrder(s[0].fileName, z.fileName, descending)
    {
      assert z in multiset(t);
      if z != x {
        assert z in s[1..];
        var k :| 0 <= k < |s[1..]| && s[1..][k] == z;
        assert s[k + 1] == z;
      }
    }
    ConsSorted(s[0], t, descending);
  }

  /** Records that are a permutation of each other carry the same names. */
  lemma NamesOfPermutation(a: seq<Record>, b: seq<Record>)
    requires multiset(a) == multiset(b)
    ensures Names(a) == Names(b)
  {
    forall n | n in Names(a)
      ensures n in Names(b)
    {
      var r :| r in a && r.fileName == n;
      assert r in multiset(a);
    }
    forall n | n in Names(b)
      ensures n in Names(a)
    {
      var r :| r in b && r.fileName == n;
      assert r in multiset(b);
    }
  }

  lemma ConsDistinct(y: Record, t: seq<Record>)
    requires DistinctNames(t) && y.fileName !in Names(t)
    ensures DistinctNames([y] + t)
  {
    var r := [y] + t;
    forall i, j | 0 <= i < j < |r|
      ensures r[i].fileName != r[j].fileName
    {
      if i == 0 {
        assert r[j] in t;
      } else {
        assert r[i] == t[i - 1] && r[j] == t[j - 1];
      }
    }
  }

  lemma {:induction false} InsertKeepsDistinct(x: Record, s: seq<Record>, descending: bool)
    requires SortedBy(s, descending)
    requires DistinctNames(s) && x.fileName !in Names(s)
    ensures DistinctNames(Insert(x, s, descending))
    decreases |s|
  {
    if |s| == 0 || InOrder(x.fileName, s[0].fileName, descending) {
      ConsDistinct(x, s);
    } else {
      var t := Insert(x, s[1..], descending);
      assert s == [s[0]] + s[1..];
      assert s[0] in s;
      assert DistinctNames(s[1..]) by {
        forall i, j | 0 <= i < j < |s[1..]|
          ensures s[1..][i].fileName != s[1..][j].fileName
        {
          assert s[1..][i] == s[i + 1] && s[1..][j] == s[j + 1];
        }
      }
      assert x.fileName !in Names(s[1..]);
      InsertKeepsDistinct(x, s[1..], descending);
      assert multiset(t) == multiset(s[1..] + [x]);
      NamesOfPermutation(t, s[1..] + [x]);
      assert s[0].fileName !in Names(s[1..]) by {
        forall k | 0 <= k < |s[1..]|
          ensures s[1..][k].fileName != s[0].fileName
        {
          assert s[1..][k] == s[k + 1];
        }
      }
      assert Names(s[1..] + [x]) == Names(s[1..]) + {x.fileName};
      ConsDistinct(s[0], t);
    }
  }

  lemma {:induction false} SortKeepsDistinct(rs: seq<Record>, descending: bool)
    ensures DistinctNames(rs) ==> DistinctNames(SortBy(rs, descending))
    decreases |rs|
  {
    if |rs| > 0 && DistinctNames(rs) {
      var tail := rs[1..];
      assert DistinctNames(tail) by {
        forall i, j | 0 <= i < j < |tail|
          ensures tail[i].fileName != tail[j].fileName
        {
          assert tail[i] == rs[i + 1] && tail[j] == rs[j + 1];
        }
      }
      SortKeepsDistinct(tail, descending);
      var st := SortBy(tail, descending);
      NamesOfPermutation(st, tail);
      assert rs[0].fileName !in Names(tail) by {
        forall k | 0 <= k < |tail|
          ensures tail[k].fileName != rs[0].fileName
        {
          assert tail[k] == rs[k + 1];
        }
      }
      InsertKeepsDistinct(rs[0], st, descending);
    }
  }

  /** `{key(r.file_name): r.content for r in rs}`: one entry per key, and when
      several records share a key the last of them wins. */
  function ContentByKey(rs: seq<Record>, key: string -> string): (m: map<string, string>)
    ensures m.Keys == set r | r in rs :: key(r.fileName)
    ensures forall k :: k in m ==> exists r :: r in rs && key(r.fileName) == k && r.content == m[k]
    ensures forall i :: 0 <= i < |rs| && LastWithKey(rs, key, i) ==> m[key(rs[i].fileName)] == rs[i].content
  {
    if |rs| == 0 then map[]
    else
      var prefix := rs[..|rs| - 1];
      var last := rs[|rs| - 1];
      var m := ContentByKey(prefix, key)[key(last.fileName) := last.content];
      ContentByKeyStep(rs, prefix, last, key, ContentByKey(prefix, key), m);
      m
  }

  /** Adding one more record to the dictionary of the records before it. */
  lemma ContentByKeyStep(rs: seq<Record>, prefix: seq<Record>, last: Record, key: string -> string,
                         init: map<string, string>, m: map<string, string>)
    requires |rs| > 0 && prefix == rs[..|rs| - 1] && last == rs[|rs| - 1]
    requires init.Keys == set r | r in prefix :: key(r.fileName)
    requires forall k :: k in init ==> exists r :: r in prefix && key(r.fileName) == k && r.content == init[k]
    requires forall i :: 0 <= i < |prefix| && LastWithKey(prefix, key, i) ==> init[key(prefix[i].fileName)] == prefix[i].content
    requires m == init[key(last.fileName) := last.content]
    ensures m.Keys == set r | r in rs :: key(r.fileName)
    ensures forall k :: k in m ==> exists r :: r in rs && key(r.fileName) == k && r.content == m[k]
    ensures forall i :: 0 <= i < |rs| && LastWithKey(rs, key, i) ==> m[key(rs[i].fileName)] == rs[i].content
  {
    assert rs == prefix + [last];
    assert forall r :: r in rs <==> r in prefix || r == last;
    forall i | 0 <= i < |prefix| && LastWithKey(rs, key, i)
      ensures m[key(rs[i].fileName)] == rs[i].content
    {
      assert forall k :: i < k < |prefix| ==> prefix[k] == rs[k];
      assert LastWithKey(prefix, key, i);
      assert prefix[i] == rs[i];
      assert key(rs[i].fileName) != key(rs[|prefix|].fileName);
    }
  }

  /** No record after index `i` has the key of `rs[i]`. */
  predicate LastWithKey(rs: seq<Record>, key: string -> string, i: int)
    requires 0 <= i < |rs|
  {
    forall k :: i < k < |rs| ==> key(rs[k].fileName) != key(rs[i].fileName)
  }

  /** `{r.file_name: r.content for r in rs}`. */
  function ContentByName(rs: seq<Record>): (m: map<string, string>)
    ensures m.Keys == Names(rs)
    ensures forall n :: n in m ==> Record(n, m[n]) in rs
    ensures DistinctNames(rs) ==> forall r :: r in rs ==> m[r.fileName] == r.content
  {
    var m := ContentByKey(rs, FileNameKey);
    assert forall n :: n in m ==> Record(n, m[n]) in rs by {
      forall n | n in m
        ensures Record(n, m[n]) in rs
      {
        var r :| r in rs && r.fileName == n && r.content == m[n];
      }
    }
    DistinctContent(rs, m);
    m
  }

  function FileNameKey(n: string): string {
    n
  }

  /** With distinct names, the record a name leads back to is the only one. */
  lemma DistinctContent(rs: seq<Record>, m: map<string, string>)
    requires m.Keys == Names(rs)
    requires forall n :: n in m ==> Record(n, m[n]) in rs
    ensures DistinctNames(rs) ==> forall r :: r in rs ==> m[r.fileName] == r.content
  {
    if DistinctNames(rs) {
      forall r | r in rs
        ensures m[r.fileName] == r.content
      {
        var i :| 0 <= i < |rs| && rs[i] == r;
        var j :| 0 <= j < |rs| && rs[j] == Record(r.fileName, m[r.fileName]);
        assert i == j;
      }
    }
  }
}
