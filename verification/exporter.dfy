/** The train/valid split of `CRUSTLoader.export_jsonl`. The `split` fraction
    is taken as the exact rational `num / den`; serialising each example as a
    JSON line and writing the two files are left to the caller, which receives
    the two batches in the order they would be written. */
module Exporter {
  import opened Matcher

  /** `{"ctext": ctext, "rtext": rtext}`: one exported example. */
  datatype Example = Example(ctext: string, rtext: string)

  /** The two batches: `exs[:cut]` for training, `exs[cut:]` for validation. */
  datatype Batches<T> = Batches(train: seq<T>, valid: seq<T>)

  /** The examples built from the pairs, one per pair and in pair order. */
  function ToExamples(pairs: seq<Pair>): (r: seq<Example>)
    ensures |r| == |pairs|
    ensures forall i :: 0 <= i < |pairs| ==> r[i] == Example(pairs[i].ctext, pairs[i].rtext)
  {
    if |pairs| == 0 then []
    else [Example(pairs[0].ctext, pairs[0].rtext)] + ToExamples(pairs[1..])
  }

  /** `int(n * split)` for `split == num / den >= 0`: the product truncated
      toward zero, which for a non-negative product is its floor. */
  function Cut(n: nat, num: nat, den: nat): (c: nat)
    requires den > 0
    ensures c * den <= n * num < (c + 1) * den
  {
    n * num / den
  }

  /** Python's `(exs[:cut], exs[cut:])` for a non-negative `cut`: a cut past
      the end takes everything into the first batch. */
  function Split<T>(exs: seq<T>, cut: nat): (b: Batches<T>)
    ensures b.train + b.valid == exs
    ensures |b.train| == if cut <= |exs| then cut else |exs|
  {
    var k := if cut <= |exs| then cut else |exs|;
    Batches(exs[..k], exs[k..])
  }

  /** `export_jsonl` without the writes: the batches of examples it would put
      in the training and the validation file. */
  function Export(pairs: seq<Pair>, num: nat, den: nat): (b: Batches<Example>)
    requires den > 0
    ensures b.train + b.valid == ToExamples(pairs)
    ensures |b.train| + |b.valid| == |pairs|
  {
    Split(ToExamples(pairs), Cut(|pairs|, num, den))
  }

  // ---------------------------------------------------------------------------
  // Lemmas

  /** For `0 <= split <= 1` the training batch holds exactly the floor of
      `len(exs) * split` examples; for `split >= 1` the validation batch is
      empty. */
  lemma ExportSizes(pairs: seq<Pair>, num: nat, den: nat)
    requires den > 0
    ensures num <= den ==> |Export(pairs, num, den).train| == Cut(|pairs|, num, den)
    ensures num <= den ==>
      |Export(pairs, num, den).train| * den <= |pairs| * num < (|Export(pairs, num, den).train| + 1) * den
    ensures num >= den ==> Export(pairs, num, den).valid == []
  {
    var n := |pairs|;
    if num <= den {
      CutAtMost(n, num, den);
    }
    if num >= den {
      CutAtLeast(n, num, den);
    }
  }

  /** A fraction of at most one never cuts past the end. */
  lemma CutAtMost(n: nat, num: nat, den: nat)
    requires den > 0 && num <= den
    ensures Cut(n, num, den) <= n
  {
    var c := Cut(n, num, den);
    MulMonotone(n, num, den);
    MulMonotone(den, n + 1, c);
  }

  /** A fraction of at least one cuts at or past the end. */
  lemma CutAtLeast(n: nat, num: nat, den: nat)
    requires den > 0 && num >= den
    ensures Cut(n, num, den) >= n
  {
    var c := Cut(n, num, den);
    MulMonotone(n, den, num);
    MulMonotone(den, c + 1, n);
  }

  lemma MulMonotone(a: nat, x: int, y: int)
    ensures x <= y ==> a * x <= a * y && x * a <= y * a
  {
  }

  /** The default `split = 0.9` on ten pairs: nine to train, one to validate. */
  lemma DefaultSplitOfTen(pairs: seq<Pair>)
    requires |pairs| == 10
    ensures |Export(pairs, 9, 10).train| == 9
    ensures Export(pairs, 9, 10).valid == ToExamples(pairs)[9..]
  {
    assert Cut(10, 9, 10) == 9;
  }
}
