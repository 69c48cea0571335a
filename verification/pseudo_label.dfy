/** The text helpers of the pseudo-labelling script: pulling the C snippet out
    of a stage-one prompt (`extract_c_code`), the user message `transpile`
    sends, the instruction rewrite and the completion wrapper of `main`. The
    model call itself is a parameter: whatever text it returns for a snippet. */
module PseudoLabel {
  import opened Wrappers
  import opened Strings

  /** The closing fence, and the opening fence of a C snippet. */
  const Fence: string := "```"
  const CFence: string := "```c"

  /** The instruction line that opens the user message of `transpile`
      (written in pieces only so that its characters are easy to inspect). */
  const TranspileInstruction: string :=
    "Translate " + "the following " + "C code into " + "fully implemented, " + "idiomatic, and " + "compilable Rust\n"

  /** The stage-one instruction, and the sentence `main` puts in its place
      (in pieces, like the line above). */
  const OldInstruction: string :=
    "Translate " + "this C code " + "into compiles-ready " + "Rust, filling out " + "`unimplemented!()`."
  const NewInstruction: string :=
    "Translate " + "the following " + "C code into " + "fully implemented, " + "idiomatic, and " + "compilable Rust."

  /** What a completion starts and ends with. */
  const RustFence: string := "```rust"
  const CompletionEnd: string := "```<|endoftext|>"

  // ---------------------------------------------------------------------------
  // extract_c_code

  /** Where a match of the fenced-block pattern lies: the opening fence starts
      at `start`, the closing fence at `close`. */
  datatype Span = Span(start: nat, close: nat)

  /** The pattern can match starting at `k`: an opening fence there, and a
      closing fence somewhere after it. */
  predicate MatchesAt(p: string, k: int) {
    OccursAt(p, CFence, k) && exists j :: k + |CFence| <= j <= |p| && OccursAt(p, Fence, j)
  }

  /** The prompt holds an opening fence followed, later, by a closing one. */
  predicate HasFencedBlock(p: string) {
    exists k :: 0 <= k <= |p| && MatchesAt(p, k)
  }

  /** The regex search from position `from`: the start positions are tried in
      turn, and at the first one where the pattern matches, the lazy `.*?`
      stops at the first closing fence after the opener. */
  function SearchFrom(p: string, from: nat): (m: Option<Span>)
    ensures m.Some? ==> from <= m.value.start && MatchesAt(p, m.value.start)
    ensures m.Some? ==> forall k :: from <= k < m.value.start ==> !MatchesAt(p, k)
    ensures m.Some? ==> m.value.start + |CFence| <= m.value.close && OccursAt(p, Fence, m.value.close)
    ensures m.Some? ==> forall j :: m.value.start + |CFence| <= j < m.value.close ==> !OccursAt(p, Fence, j)
    ensures m.None? ==> forall k :: from <= k ==> !MatchesAt(p, k)
    decreases |p| - from
  {
    if from + |CFence| > |p| then None
    else if OccursAt(p, CFence, from) then
      match FindFrom(p, Fence, from + |CFence|)
      case Some(j) => Some(Span(from, j))
      case None => SearchFrom(p, from + 1)
    else SearchFrom(p, from + 1)
  }

  /** `extract_c_code`: the text between the first opening fence and the first
      closing fence after it, or the whole prompt when there is no such pair.
      The match always starts at the first opening fence, the prompt spells
      out `CFence + r + Fence` there, no closing fence starts before the one
      that ends `r` (the lazy `.*?`), and the snippet never holds a fence. */
  function ExtractCCode(prompt: string): (r: string)
    ensures !HasFencedBlock(prompt) ==> r == prompt
    ensures HasFencedBlock(prompt) ==>
      exists i :: IsFirstOccurrence(prompt, CFence, i) && OccursAt(prompt, CFence + r + Fence, i) &&
        forall j :: i + |CFence| <= j < i + |CFence| + |r| ==> !OccursAt(prompt, Fence, j)
    ensures HasFencedBlock(prompt) ==> !Contains(r, Fence)
    ensures HasFencedBlock(prompt) <==> |r| + |CFence| + |Fence| <= |prompt|
  {
    match SearchFrom(prompt, 0)
    case None => prompt
    case Some(sp) =>
      var r := prompt[sp.start + |CFence|..sp.close];
      FirstOpenerMatches(prompt, sp.start);
      SnippetIsFenced(prompt, sp.start, sp.close);
      SnippetHasNoFence(prompt, sp.start, sp.close);
      r
  }

  /** Some opener has a closing fence after it, so the first opener has one too. */
  lemma FirstOpenerMatches(p: string, k: int)
    requires MatchesAt(p, k)
    requires forall i :: 0 <= i < k ==> !MatchesAt(p, i)
    ensures IsFirstOccurrence(p, CFence, k)
  {
    forall i | 0 <= i < k
      ensures !OccursAt(p, CFence, i)
    {
      var j :| k + |CFence| <= j <= |p| && OccursAt(p, Fence, j);
      assert !MatchesAt(p, i);
      assert i + |CFence| <= j <= |p|;
    }
  }

  lemma SnippetIsFenced(p: string, start: nat, close: nat)
    requires OccursAt(p, CFence, start) && start + |CFence| <= close && OccursAt(p, Fence, close)
    ensures OccursAt(p, CFence + p[start + |CFence|..close] + Fence, start)
  {
    var w := CFence + p[start + |CFence|..close] + Fence;
    assert p[start..start + |w|] == p[start..start + |CFence|] + p[start + |CFence|..close] + p[close..close + |Fence|];
  }

  /** A fence inside the snippet would be a closing fence before `close`. */
  lemma SnippetHasNoFence(p: string, start: nat, close: nat)
    requires start + |CFence| <= close <= |p|
    requires forall j :: start + |CFence| <= j < close ==> !OccursAt(p, Fence, j)
    ensures !Contains(p[start + |CFence|..close], Fence)
  {
    var r := p[start + |CFence|..close];
    forall t | 0 <= t <= |r|
      ensures !OccursAt(r, Fence, t)
    {
      if t + |Fence| <= |r| {
        var j := start + |CFence| + t;
        SliceOfSlice(p, start + |CFence|, close, t, t + |Fence|);
        assert !OccursAt(p, Fence, j);
      }
    }
  }

  // ---------------------------------------------------------------------------
  // The user message of transpile, and the round trip

  /** The user message `transpile` sends for a C snippet. */
  function TranspileMessage(ctext: string): (m: string)
    ensures StartsWith(m, TranspileInstruction + CFence) && EndsWith(m, Fence)
    ensures |m| == |TranspileInstruction| + |CFence| + |ctext| + |Fence|
    ensures m[|TranspileInstruction + CFence|..|m| - |Fence|] == ctext
  {
    TranspileInstruction + CFence + ctext + Fence
  }

  /** Extracting from the message `transpile` builds gives the snippet back,
      as long as the snippet holds no fence and does not end in a backtick
      (either would move the closing fence into the snippet). */
  lemma ExtractTranspileMessage(ctext: string)
    requires !Contains(ctext, Fence)
    requires |ctext| == 0 || ctext[|ctext| - 1] != '`'
    ensures ExtractCCode(TranspileMessage(ctext)) == ctext
  {
    ExtractAfterInstruction(ctext, Fence);
  }

  /** A snippet ending in a backtick loses it: the closing fence is found one
      character early. */
  lemma TrailingBacktickIsLost(ctext: string)
    requires !Contains(ctext, Fence)
    requires |ctext| == 0 || ctext[|ctext| - 1] != '`'
    ensures ExtractCCode(TranspileMessage(ctext + "`")) == ctext
  {
    assert TranspileMessage(ctext + "`") == TranspileInstruction + CFence + ctext + "````";
    ExtractAfterInstruction(ctext, "````");
  }

  /** The instruction line, an opening fence, a fence-free snippet not ending
      in a backtick, then anything that starts with a fence: the extraction
      is the snippet. */
  lemma {:induction false} ExtractAfterInstruction(ctext: string, rest: string)
    requires !Contains(ctext, Fence)
    requires |ctext| == 0 || ctext[|ctext| - 1] != '`'
    requires StartsWith(rest, Fence)
    ensures ExtractCCode(TranspileInstruction + CFence + ctext + rest) == ctext
  {
    var m := TranspileInstruction + CFence + ctext + rest;
    var l := |TranspileInstruction|;
    var e := l + |CFence| + |ctext|;
    assert |m| == e + |rest|;
    assert m[l..l + |CFence|] == CFence;
    assert m[l + |CFence|..e] == ctext;
    assert m[e..e + |Fence|] == rest[..|Fence|];
    InstructionHasNoBacktick();
    assert OccursAt(m, Fence, e);
    assert MatchesAt(m, l);
    forall k | 0 <= k < l
      ensures !MatchesAt(m, k)
    {
      assert m[k] == TranspileInstruction[k];
      assert k + |CFence| <= |m| ==> m[k..k + |CFence|][0] == m[k];
    }
    forall j | l + |CFence| <= j < e
      ensures !OccursAt(m, Fence, j)
    {
      NoEarlierClose(ctext, m, l + |CFence|, j);
    }
    var sp := SearchFrom(m, 0).value;
    assert sp.start == l;
    assert sp.close == e;
  }

  lemma InstructionHasNoBacktick()
    ensures forall k :: 0 <= k < |TranspileInstruction| ==> TranspileInstruction[k] != '`'
  {
    assert '`' !in TranspileInstruction;
  }

  /** With `ctext` at `base` and a fence right after it, no fence starts
      inside `ctext`: one wholly inside would be a fence of `ctext`, and one
      running into the next fence would need `ctext` to end in a backtick. */
  lemma NoEarlierClose(ctext: string, m: string, base: nat, j: nat)
    requires base + |ctext| + |Fence| <= |m|
    requires m[base..base + |ctext|] == ctext
    requires !Contains(ctext, Fence)
    requires |ctext| == 0 || ctext[|ctext| - 1] != '`'
    requires base <= j < base + |ctext|
    ensures !OccursAt(m, Fence, j)
  {
    var t := j - base;
    if t + |Fence| <= |ctext| {
      SliceOfSlice(m, base, base + |ctext|, t, t + |Fence|);
      assert !OccursAt(ctext, Fence, t);
    } else {
      var last := base + |ctext| - 1;
      assert m[last] == ctext[|ctext| - 1] != '`';
      assert 0 <= last - j < |Fence| && Fence[last - j] == '`';
      assert m[j..j + |Fence|][last - j] == m[last];
    }
  }

  // ---------------------------------------------------------------------------
  // The instruction rewrite

  /** Python's `s.replace(target, repl)`: every occurrence of `target`, scanning
      left to right without overlap, replaced by `repl`. */
  function ReplaceAll(s: string, target: string, repl: string): (r: string)
    requires |target| > 0
    ensures !Contains(s, target) ==> r == s
    ensures Contains(s, target) ==> Contains(r, repl)
    ensures |repl| >= |target| ==> |r| >= |s|
    ensures |repl| > |target| && Contains(s, target) ==> |r| > |s|
    decreases |s|
  {
    if |s| < |target| then
      assert !Contains(s, target);
      s
    else if s[..|target|] == target then
      var rest := ReplaceAll(s[|target|..], target, repl);
      assert OccursAt(s, target, 0);
      assert OccursAt(repl + rest, repl, 0);
      repl + rest
    else
      var rest := ReplaceAll(s[1..], target, repl);
      ShiftOccurrence(s, target);
      ConsKeepsOccurrence(s[0], rest, repl);
      [s[0]] + rest
  }

  /** An occurrence survives a character put in front. */
  lemma ConsKeepsOccurrence(c: char, rest: string, pat: string)
    ensures Contains(rest, pat) ==> Contains([c] + rest, pat)
  {
    if Contains(rest, pat) {
      var t :| 0 <= t <= |rest| && OccursAt(rest, pat, t);
      assert ([c] + rest)[t + 1..t + 1 + |pat|] == rest[t..t + |pat|];
      assert OccursAt([c] + rest, pat, t + 1);
    }
  }

  /** Without a match at the front, `target` occurs in `s` exactly when it occurs
      in `s[1..]`. */
  lemma ShiftOccurrence(s: string, target: string)
    requires |s| >= |target| > 0 && s[..|target|] != target
    ensures Contains(s, target) <==> Contains(s[1..], target)
  {
    if Contains(s, target) {
      var i :| 0 <= i <= |s| && OccursAt(s, target, i);
      assert i > 0;
      assert s[1..][i - 1..i - 1 + |target|] == s[i..i + |target|];
      assert OccursAt(s[1..], target, i - 1);
    }
    if Contains(s[1..], target) {
      var i :| 0 <= i <= |s[1..]| && OccursAt(s[1..], target, i);
      assert s[i + 1..i + 1 + |target|] == s[1..][i..i + |target|];
      assert OccursAt(s, target, i + 1);
    }
  }

  /** One step of `ReplaceAll` where the target does not start the text. */
  lemma ReplaceAllSkip(s: string, target: string, repl: string)
    requires |s| >= |target| > 0 && s[..|target|] != target
    ensures ReplaceAll(s, target, repl) == [s[0]] + ReplaceAll(s[1..], target, repl)
  {
  }

  /** `replace` as a recursion through the first occurrence of the target:
      the text before it, the replacement, then the rest replaced in turn. */
  lemma {:induction false} ReplaceAllAtFirst(s: string, target: string, repl: string, i: nat)
    requires |target| > 0 && IsFirstOccurrence(s, target, i)
    ensures ReplaceAll(s, target, repl) == s[..i] + repl + ReplaceAll(s[i + |target|..], target, repl)
    decreases i
  {
    if i == 0 {
      assert s[..|target|] == target;
    } else {
      assert !OccursAt(s, target, 0);
      var t := s[1..];
      var j := i - 1;
      FirstOccurrenceOfTail(s, target, i, j);
      ReplaceAllAtFirst(t, target, repl, j);
      ReplaceAllSkip(s, target, repl);
      Regroup(s, i, j, repl, ReplaceAll(t, target, repl), ReplaceAll(t[j + |target|..], target, repl));
      SameRest(s, target, repl, j, i);
    }
  }

  /** The rest after the occurrence is the same text whether it is cut from
      the tail or from the whole. */
  lemma SameRest(s: string, target: string, repl: string, j: nat, i: nat)
    requires |target| > 0 && i == j + 1 && i + |target| <= |s|
    ensures ReplaceAll(s[1..][j + |target|..], target, repl) == ReplaceAll(s[i + |target|..], target, repl)
  {
    assert s[1..][j + |target|..] == s[i + |target|..];
  }

  /** The text in front of the first replacement, regrouped around its first
      character. */
  lemma Regroup(s: string, i: nat, j: nat, repl: string, tailDone: string, rest: string)
    requires 0 < i <= |s| && j == i - 1
    requires tailDone == s[1..][..j] + repl + rest
    ensures [s[0]] + tailDone == s[..i] + repl + rest
  {
    assert s[..i] == [s[0]] + s[1..][..j];
  }

  /** A first occurrence past the front is, one place earlier, the first
      occurrence in the tail. */
  lemma FirstOccurrenceOfTail(s: string, target: string, i: nat, j: nat)
    requires |target| > 0 && i > 0 && j == i - 1 && IsFirstOccurrence(s, target, i)
    ensures IsFirstOccurrence(s[1..], target, j)
  {
    var t := s[1..];
    assert t[j..j + |target|] == s[i..i + |target|];
    forall k | 0 <= k < j
      ensures !OccursAt(t, target, k)
    {
      assert !OccursAt(s, target, k + 1);
      assert t[k..k + |target|] == s[k + 1..k + 1 + |target|];
    }
  }

  /** The same recursion through `FindFrom` (Python's `find`): no occurrence
      leaves the text as it is, and otherwise the first one found is
      replaced and the search goes on after it. */
  lemma ReplaceAllByFind(s: string, target: string, repl: string, i: nat)
    requires |target| > 0
    ensures FindFrom(s, target, 0).None? ==> ReplaceAll(s, target, repl) == s
    ensures FindFrom(s, target, 0) == Some(i) ==>
      ReplaceAll(s, target, repl) == s[..i] + repl + ReplaceAll(s[i + |target|..], target, repl)
  {
    if FindFrom(s, target, 0) == Some(i) {
      FoundIsFirst(s, target, i);
      ReplaceAllAtFirst(s, target, repl, i);
    }
    if FindFrom(s, target, 0).None? {
      NotFoundNotContained(s, target);
    }
  }

  lemma FoundIsFirst(s: string, target: string, i: nat)
    requires |target| > 0 && FindFrom(s, target, 0) == Some(i)
    ensures IsFirstOccurrence(s, target, i)
  {
  }

  lemma NotFoundNotContained(s: string, target: string)
    requires |target| > 0 && FindFrom(s, target, 0).None?
    ensures !Contains(s, target)
  {
  }

  /** When a replacement cannot overlap an occurrence of the target, no
      occurrence survives: the replacement is at least as long as the target
      and does not start with it, the target's first character does not recur
      in the replacement, and the replacement's first character does not
      recur in the target. */
  lemma {:induction false} ReplacedHasNoTarget(s: string, target: string, repl: string)
    requires |target| > 0 && |repl| >= |target|
    requires repl[..|target|] != target
    requires forall k :: 1 <= k < |repl| ==> repl[k] != target[0]
    requires forall k :: 1 <= k < |target| ==> target[k] != repl[0]
    ensures !Contains(ReplaceAll(s, target, repl), target)
    decreases |s|
  {
    match FindFrom(s, target, 0)
    case None =>
    case Some(i) =>
      ReplaceAllAtFirst(s, target, repl, i);
      var tail := s[i + |target|..];
      ReplacedHasNoTarget(tail, target, repl);
      var rt := ReplaceAll(tail, target, repl);
      var r := s[..i] + repl + rt;
      forall p | 0 <= p <= |r|
        ensures !OccursAt(r, target, p)
      {
        NoOccurrenceAcross(s, target, repl, rt, i, p);
      }
  }

  /** No occurrence of the target starts at `p` in `s[..i] + repl + rt`,
      whether `p` falls before the replacement, in it, or after it. */
  lemma NoOccurrenceAcross(s: string, target: string, repl: string, rt: string, i: nat, p: nat)
    requires |target| > 0 && |repl| >= |target|
    requires repl[..|target|] != target
    requires forall k :: 1 <= k < |repl| ==> repl[k] != target[0]
    requires forall k :: 1 <= k < |target| ==> target[k] != repl[0]
    requires i <= |s| && forall k :: 0 <= k < i ==> !OccursAt(s, target, k)
    requires !Contains(rt, target)
    ensures !OccursAt(s[..i] + repl + rt, target, p)
  {
    var r := s[..i] + repl + rt;
    var n := |target|;
    if p + n <= |r| {
      var w := r[p..p + n];
      if p + n <= i {
        assert w == s[p..p + n];
        assert !OccursAt(s, target, p);
      } else if p < i {
        assert w[i - p] == r[i] == repl[0];
        assert target[i - p] != repl[0];
      } else if p == i {
        assert w == repl[..n];
      } else if p < i + |repl| {
        assert w[0] == repl[p - i];
        assert repl[p - i] != target[0];
      } else {
        var q := p - i - |repl|;
        assert w == rt[q..q + n];
        assert !OccursAt(rt, target, q);
      }
    }
  }

  /** The prompt rewrite of `main`: every stage-one instruction is replaced,
      and none is left behind. */
  function RewriteInstruction(prompt: string): (r: string)
    ensures !Contains(prompt, OldInstruction) ==> r == prompt
    ensures Contains(prompt, OldInstruction) ==> Contains(r, NewInstruction)
    ensures !Contains(r, OldInstruction)
  {
    InstructionsCannotOverlap();
    ReplacedHasNoTarget(prompt, OldInstruction, NewInstruction);
    ReplaceAll(prompt, OldInstruction, NewInstruction)
  }

  /** The new instruction is longer than the old, so the rewrite changes the
      prompt exactly when the old instruction occurs in it. */
  lemma RewriteChangesExactlyStageOne(prompt: string)
    ensures RewriteInstruction(prompt) == prompt <==> !Contains(prompt, OldInstruction)
  {
    assert |NewInstruction| > |OldInstruction|;
  }

  /** The new sentence cannot overlap the old one, so the rewrite leaves no
      stage-one instruction behind: each begins with the only capital `T` it
      holds, and they part at the word after "Translate". */
  lemma InstructionsCannotOverlap()
    ensures |NewInstruction| >= |OldInstruction| > 0
    ensures NewInstruction[..|OldInstruction|] != OldInstruction
    ensures forall k :: 1 <= k < |NewInstruction| ==> NewInstruction[k] != OldInstruction[0]
    ensures forall k :: 1 <= k < |OldInstruction| ==> OldInstruction[k] != NewInstruction[0]
  {
    InstructionsPart();
    NewHasOneCapitalT();
    OldHasOneCapitalT();
  }

  /** Both sentences start with "Translate " and part at the next word. */
  lemma InstructionsPart()
    ensures |NewInstruction| >= |OldInstruction| > 12
    ensures OldInstruction[0] == NewInstruction[0] == 'T'
    ensures NewInstruction[..|OldInstruction|] != OldInstruction
  {
    assert NewInstruction[12] == 'e' && OldInstruction[12] == 'i';
    assert NewInstruction[..|OldInstruction|][12] == NewInstruction[12];
  }

  lemma NewHasOneCapitalT()
    ensures forall k :: 1 <= k < |NewInstruction| ==> NewInstruction[k] != 'T'
  {
    var head := "Translate ";
    var tail := "the following " + "C code into " + "fully implemented, " + "idiomatic, and " + "compilable Rust.";
    assert NewInstruction == head + tail;
    assert 'T' !in tail;
    assert forall k :: 1 <= k < |head| ==> head[k] != 'T';
  }

  lemma OldHasOneCapitalT()
    ensures forall k :: 1 <= k < |OldInstruction| ==> OldInstruction[k] != 'T'
  {
    var head := "Translate ";
    var tail := "this C code " + "into compiles-ready " + "Rust, filling out " + "`unimplemented!()`.";
    assert OldInstruction == head + tail;
    assert 'T' !in tail;
    assert forall k :: 1 <= k < |head| ==> head[k] != 'T';
  }

  // ---------------------------------------------------------------------------
  // The completion

  /** The completion written for a model answer. */
  function Completion(answer: string): (c: string)
    ensures StartsWith(c, RustFence) && EndsWith(c, CompletionEnd)
    ensures |c| == |RustFence| + |answer| + |CompletionEnd|
  {
    var c := RustFence + answer + CompletionEnd;
    assert c[..|RustFence|] == RustFence;
    assert c[|c| - |CompletionEnd|..] == CompletionEnd;
    c
  }

  /** The model answer inside a completion-shaped text. */
  function CompletionBody(c: string): (answer: string)
    requires StartsWith(c, RustFence) && EndsWith(c, CompletionEnd)
    requires |c| >= |RustFence| + |CompletionEnd|
    ensures |answer| == |c| - |RustFence| - |CompletionEnd|
  {
    c[|RustFence|..|c| - |CompletionEnd|]
  }

  /** Taking the body of a wrapped answer gives the answer back. */
  lemma CompletionUnwraps(answer: string)
    ensures CompletionBody(Completion(answer)) == answer
  {
    var w := Completion(answer);
    assert w == RustFence + answer + CompletionEnd;
    assert w[|RustFence|..|w| - |CompletionEnd|] == answer;
  }

  /** Wrapping the body of a completion-shaped text gives the text back. */
  lemma CompletionRewraps(c: string)
    requires StartsWith(c, RustFence) && EndsWith(c, CompletionEnd)
    requires |c| >= |RustFence| + |CompletionEnd|
    ensures Completion(CompletionBody(c)) == c
  {
    var b := CompletionBody(c);
    assert c == c[..|RustFence|] + b + c[|c| - |CompletionEnd|..];
  }

  // ---------------------------------------------------------------------------
  // One pass of main over the stage-one examples

  /** `{"prompt": prompt, "completion": completion}`. */
  datatype Labeled = Labeled(prompt: string, completion: string)

  /** The example `main` builds from a stage-one prompt, given what the model
      answers for a snippet. */
  function Label(prompt: string, transpile: string -> string): (ex: Labeled)
    ensures ex.prompt == RewriteInstruction(prompt)
    ensures StartsWith(ex.completion, RustFence) && EndsWith(ex.completion, CompletionEnd)
    ensures |ex.completion| >= |RustFence| + |CompletionEnd|
    ensures CompletionBody(ex.completion) == transpile(ExtractCCode(prompt))
  {
    var answer := transpile(ExtractCCode(prompt));
    CompletionUnwraps(answer);
    Labeled(RewriteInstruction(prompt), Completion(answer))
  }

  /** The loop of `main`: one labelled example per input line, in order. */
  function LabelAll(prompts: seq<string>, transpile: string -> string): (r: seq<Labeled>)
    ensures |r| == |prompts|
    ensures forall i :: 0 <= i < |prompts| ==> r[i] == Label(prompts[i], transpile)
  {
    if |prompts| == 0 then []
    else [Label(prompts[0], transpile)] + LabelAll(prompts[1..], transpile)
  }

  /** A stage-one prompt built the way `transpile` builds its message is
      answered on the exact snippet it carries. */
  lemma LabelOfTranspileMessage(ctext: string, transpile: string -> string)
    requires !Contains(ctext, Fence)
    requires |ctext| == 0 || ctext[|ctext| - 1] != '`'
    ensures CompletionBody(Label(TranspileMessage(ctext), transpile).completion) == transpile(ctext)
  {
    ExtractTranspileMessage(ctext);
  }
}
