/** `CRUSTLoader.remove_comments`: three regular-expression substitutions
    applied in turn, each modelled as the left-to-right scan `re.sub` performs.

      1. `//.*?\n` becomes `\n`: a line comment together with the newline
         ending it (`.` does not match a newline, so the match stops at the
         first one);
      2. a block comment is deleted: slash-star, the shortest run of any
         characters (DOTALL), then star-slash, so it ends at the first
         star-slash that starts after the opening slash-star;
      3. `\n+` becomes `\n`.

    The stripping is lexical: comment markers inside string literals are
    treated like real ones. */
module Comments {
  import opened Wrappers
  import opened Strings

  /** No two adjacent newline characters. */
  predicate NoBlankRun(s: string) {
    forall i :: 0 <= i < |s| - 1 ==> !(s[i] == '\n' && s[i + 1] == '\n')
  }

  predicate NoNewline(s: string) {
    forall k :: 0 <= k < |s| ==> s[k] != '\n'
  }

  /** No `//` in `s` is followed, anywhere later, by a newline: every line
      comment the first substitution could still match has been removed. */
  predicate NoTerminatedLineComment(s: string) {
    forall i, j :: 0 <= i && i + 1 < j < |s| && s[i] == '/' && s[i + 1] == '/' ==> s[j] != '\n'
  }

  /** `s` has a complete block comment: a slash-star followed later by a
      star-slash that does not share its star. */
  predicate HasBlockComment(s: string) {
    exists i, j :: 0 <= i && i + 2 <= j <= |s| && OccursAt(s, "/*", i) && OccursAt(s, "*/", j)
  }

  // ---------------------------------------------------------------------------
  // Step 1: re.sub(r"//.*?\n", "\n", code)

  function StripLineComments(s: string): (r: string)
    ensures |r| <= |s|
    decreases |s|
  {
    if |s| < 2 then s
    else if s[0] == '/' && s[1] == '/' && FindFrom(s, "\n", 2).Some? then
      var j := FindFrom(s, "\n", 2).value;
      "\n" + StripLineComments(s[j + 1..])
    else [s[0]] + StripLineComments(s[1..])
  }

  // ---------------------------------------------------------------------------
  // Step 2: re.sub(r"/\*.*?\*/", "", code, flags=re.DOTALL)

  function StripBlockComments(s: string): (r: string)
    ensures |r| <= |s|
    ensures forall k :: 0 <= k < |r| ==> r[k] in s
    decreases |s|
  {
    if |s| < 2 then s
    else if s[0] == '/' && s[1] == '*' && FindFrom(s, "*/", 2).Some? then
      var j := FindFrom(s, "*/", 2).value;
      StripBlockComments(s[j + 2..])
    else [s[0]] + StripBlockComments(s[1..])
  }

  // ---------------------------------------------------------------------------
  // Step 3: re.sub(r"\n+", "\n", code)

  /** The suffix of `s` left after its leading run of newlines. */
  function DropNewlines(s: string): (r: string)
    ensures |r| <= |s| && r == s[|s| - |r|..]
    ensures forall k :: 0 <= k < |s| - |r| ==> s[k] == '\n'
    ensures |r| == 0 || r[0] != '\n'
  {
    if |s| > 0 && s[0] == '\n' then DropNewlines(s[1..]) else s
  }

  function CollapseNewlines(s: string): (r: string)
    ensures |r| <= |s|
    ensures NoBlankRun(r)
    ensures |s| > 0 ==> |r| > 0 && r[0] == s[0]
    decreases |s|
  {
    if |s| == 0 then s
    else if s[0] == '\n' then "\n" + CollapseNewlines(DropNewlines(s))
    else [s[0]] + CollapseNewlines(s[1..])
  }

  // ---------------------------------------------------------------------------
  // The composition

  function RemoveComments(code: string): (r: string)
    ensures |r| <= |code|
    ensures NoBlankRun(r)
    ensures NoTerminatedLineComment(r)
    ensures (forall k :: 0 <= k < |code| ==> code[k] != '/') ==> r == CollapseNewlines(code)
  {
    var noLine := StripLineComments(code);
    var noBlock := StripBlockComments(noLine);
    StrippedLinesStayStripped(code);
    BlockStripKeepsLinesStripped(noLine);
    CollapseKeepsLinesStripped(noBlock);
    NoSlashUnchanged(code);
    CollapseNewlines(noBlock)
  }

  // ---------------------------------------------------------------------------
  // Lemmas

  /** How `NoTerminatedLineComment` behaves on a string with one more character
      in front. */
  lemma ConsNoTerminated(c: char, t: string)
    ensures NoTerminatedLineComment([c] + t) <==>
      NoTerminatedLineComment(t) && (c == '/' && |t| > 0 && t[0] == '/' ==> NoNewline(t[1..]))
  {
    var s := [c] + t;
    if NoTerminatedLineComment(s) {
      forall i, j | 0 <= i && i + 1 < j < |t| && t[i] == '/' && t[i + 1] == '/'
        ensures t[j] != '\n'
      {
        assert s[i + 1] == t[i] && s[i + 2] == t[i + 1] && s[j + 1] == t[j];
      }
      if c == '/' && |t| > 0 && t[0] == '/' {
        forall k | 0 <= k < |t[1..]|
          ensures t[1..][k] != '\n'
        {
          assert s[0] == '/' && s[1] == '/';
          assert s[k + 2] == t[1..][k];
        }
      }
    }
    if NoTerminatedLineComment(t) && (c == '/' && |t| > 0 && t[0] == '/' ==> NoNewline(t[1..])) {
      forall i, j | 0 <= i && i + 1 < j < |s| && s[i] == '/' && s[i + 1] == '/'
        ensures s[j] != '\n'
      {
        if i == 0 {
          assert s[j] == t[j - 1] == t[1..][j - 2];
        } else {
          assert s[i] == t[i - 1] && s[i + 1] == t[i] && s[j] == t[j - 1];
        }
      }
    }
  }

  lemma SuffixNoTerminated(s: string, k: nat)
    requires k <= |s|
    requires NoTerminatedLineComment(s)
    ensures NoTerminatedLineComment(s[k..])
  {
    var t := s[k..];
    forall i, j | 0 <= i && i + 1 < j < |t| && t[i] == '/' && t[i + 1] == '/'
      ensures t[j] != '\n'
    {
      assert s[k + i] == t[i] && s[k + i + 1] == t[i + 1] && s[k + j] == t[j];
    }
  }

  /** The first substitution leaves no line comment that it could still match. */
  lemma {:induction false} StrippedLinesStayStripped(s: string)
    ensures NoTerminatedLineComment(StripLineComments(s))
    decreases |s|
  {
    if |s| < 2 {
      NoNewlineNoTerminatedShort(s);
    } else if s[0] == '/' && s[1] == '/' && FindFrom(s, "\n", 2).Some? {
      var j := FindFrom(s, "\n", 2).value;
      StrippedLinesStayStripped(s[j + 1..]);
      ConsNoTerminated('\n', StripLineComments(s[j + 1..]));
    } else {
      var t := s[1..];
      StrippedLinesStayStripped(t);
      var rt := StripLineComments(t);
      if s[0] == '/' && |rt| > 0 && rt[0] == '/' {
        // rt starts with t[0], so s starts with `//` and no newline follows it
        FirstOfStripped(t);
        assert t[0] == '/';
        assert FindFrom(s, "\n", 2).None?;
        NoNewlineAfter(s, 2);
        NewlineFreeUnchanged(s[2..]);
        assert t[1..] == s[2..];
        if |t| >= 2 {
          assert rt == [t[0]] + StripLineComments(t[1..]);
        }
        assert rt[1..] == s[2..] || |rt| <= 1;
      }
      ConsNoTerminated(s[0], rt);
    }
  }

  lemma NoNewlineNoTerminatedShort(s: string)
    requires |s| < 2
    ensures NoTerminatedLineComment(s)
  {
  }

  lemma NewlineFreeHasNoNewlineOccurrence(s: string)
    requires NoNewline(s)
    ensures forall k :: !OccursAt(s, "\n", k)
  {
    forall k
      ensures !OccursAt(s, "\n", k)
    {
      if 0 <= k < |s| {
        assert s[k..k + 1] == [s[k]];
      }
    }
  }

  /** If no newline occurs at or after `from`, the tail from `from` is newline-free. */
  lemma NoNewlineAfter(s: string, from: nat)
    requires from <= |s|
    requires forall k :: from <= k ==> !OccursAt(s, "\n", k)
    ensures NoNewline(s[from..])
  {
    forall k | 0 <= k < |s[from..]|
      ensures s[from..][k] != '\n'
    {
      assert s[from + k..from + k + 1] == [s[from..][k]];
      assert !OccursAt(s, "\n", from + k);
    }
  }

  /** The first substitution starts its output with the input's first character
      unless it removed a comment there, in which case it starts with `\n`. */
  lemma FirstOfStripped(t: string)
    requires |StripLineComments(t)| > 0 && StripLineComments(t)[0] != '\n'
    ensures |t| > 0 && StripLineComments(t)[0] == t[0]
  {
  }

  /** A newline-free string is left alone by the first substitution. */
  lemma {:induction false} NewlineFreeUnchanged(s: string)
    requires NoNewline(s)
    ensures StripLineComments(s) == s
    decreases |s|
  {
    if |s| >= 2 {
      NewlineFreeHasNoNewlineOccurrence(s);
      assert NoNewline(s[1..]);
      NewlineFreeUnchanged(s[1..]);
      assert s == [s[0]] + s[1..];
    }
  }

  /** The second substitution never creates a terminated line comment: a `//`
      it brings together across a deleted block was already a `//` before. */
  lemma {:induction false} BlockStripKeepsLinesStripped(s: string)
    requires NoTerminatedLineComment(s)
    ensures NoTerminatedLineComment(StripBlockComments(s))
    decreases |s|
  {
    if |s| < 2 {
    } else if s[0] == '/' && s[1] == '*' && FindFrom(s, "*/", 2).Some? {
      var j := FindFrom(s, "*/", 2).value;
      SuffixNoTerminated(s, j + 2);
      BlockStripKeepsLinesStripped(s[j + 2..]);
    } else {
      var t := s[1..];
      assert s == [s[0]] + t;
      ConsNoTerminated(s[0], t);
      BlockStripKeepsLinesStripped(t);
      var rt := StripBlockComments(t);
      if |t| >= 2 && t[0] != '/' {
        assert rt == [t[0]] + StripBlockComments(t[1..]);
      }
      if s[0] == '/' && |rt| > 0 && rt[0] == '/' && t[0] == '/' {
        {
          // s starts with `//`, so nothing after it is a newline
          assert NoNewline(t[1..]);
          assert NoNewline(t);
          forall k | 0 <= k < |rt[1..]|
            ensures rt[1..][k] != '\n'
          {
            assert rt[1..][k] == rt[k + 1];
            assert rt[k + 1] in t;
          }
        }
      }
      ConsNoTerminated(s[0], rt);
    }
  }

  /** The third substitution keeps every `//` next to its successor and brings no
      newline after one, so it never creates a terminated line comment. */
  lemma {:induction false} CollapseKeepsLinesStripped(s: string)
    requires NoTerminatedLineComment(s)
    ensures NoTerminatedLineComment(CollapseNewlines(s))
    decreases |s|
  {
    if |s| == 0 {
    } else if s[0] == '\n' {
      var d := DropNewlines(s);
      SuffixNoTerminated(s, |s| - |d|);
      CollapseKeepsLinesStripped(d);
      ConsNoTerminated('\n', CollapseNewlines(d));
    } else {
      var t := s[1..];
      assert s == [s[0]] + t;
      ConsNoTerminated(s[0], t);
      CollapseKeepsLinesStripped(t);
      var rt := CollapseNewlines(t);
      if s[0] == '/' && |rt| > 0 && rt[0] == '/' {
        assert t[0] == '/';
        assert NoNewline(t[1..]);
        assert rt == [t[0]] + CollapseNewlines(t[1..]);
        NewlineFreeCollapseUnchanged(t[1..]);
        assert rt[1..] == t[1..];
      }
      ConsNoTerminated(s[0], rt);
    }
  }

  lemma {:induction false} NewlineFreeCollapseUnchanged(s: string)
    requires NoNewline(s)
    ensures CollapseNewlines(s) == s
    decreases |s|
  {
    if |s| > 0 {
      NewlineFreeCollapseUnchanged(s[1..]);
      assert s == [s[0]] + s[1..];
    }
  }

  /** Without a `/` there is no comment to remove: only the newline runs collapse. */
  lemma NoSlashUnchanged(s: string)
    ensures (forall k :: 0 <= k < |s| ==> s[k] != '/') ==>
      StripLineComments(s) == s && StripBlockComments(s) == s
  {
    if forall k :: 0 <= k < |s| ==> s[k] != '/' {
      NoSlashLineUnchanged(s);
      NoSlashBlockUnchanged(s);
    }
  }

  lemma {:induction false} NoSlashLineUnchanged(s: string)
    requires forall k :: 0 <= k < |s| ==> s[k] != '/'
    ensures StripLineComments(s) == s
    decreases |s|
  {
    if |s| >= 2 {
      NoSlashLineUnchanged(s[1..]);
      assert s == [s[0]] + s[1..];
    }
  }

  lemma {:induction false} NoSlashBlockUnchanged(s: string)
    requires forall k :: 0 <= k < |s| ==> s[k] != '/'
    ensures StripBlockComments(s) == s
    decreases |s|
  {
    if |s| >= 2 {
      NoSlashBlockUnchanged(s[1..]);
      assert s == [s[0]] + s[1..];
    }
  }
  // ---------------------------------------------------------------------------
  // Each substitution changes its input exactly when it has something to match

  /** The first substitution is the identity exactly on strings without a
      terminated line comment. */
  lemma LineStripFixpoints(s: string)
    ensures StripLineComments(s) == s <==> NoTerminatedLineComment(s)
  {
    StrippedLinesStayStripped(s);
    if NoTerminatedLineComment(s) {
      UnterminatedUnchanged(s);
    }
  }

  lemma {:induction false} UnterminatedUnchanged(s: string)
    requires NoTerminatedLineComment(s)
    ensures StripLineComments(s) == s
    decreases |s|
  {
    if |s| >= 2 {
      assert s == [s[0]] + s[1..];
      ConsNoTerminated(s[0], s[1..]);
      if s[0] == '/' && s[1] == '/' {
        assert s[1..][1..] == s[2..];
        NoOccurrenceInTail(s, 2);
      }
      UnterminatedUnchanged(s[1..]);
    }
  }

  /** A newline-free tail from `from` leaves nothing for the search to find. */
  lemma NoOccurrenceInTail(s: string, from: nat)
    requires from <= |s|
    requires NoNewline(s[from..])
    ensures FindFrom(s, "\n", from).None?
  {
    forall k | from <= k
      ensures !OccursAt(s, "\n", k)
    {
      if k < |s| {
        assert s[k] == s[from..][k - from];
        assert s[k..k + 1] == [s[k]];
      }
    }
  }

  /** The second substitution is the identity exactly on strings without a
      complete block comment; otherwise it makes them strictly shorter. */
  lemma BlockStripFixpoints(s: string)
    ensures StripBlockComments(s) == s <==> !HasBlockComment(s)
    ensures HasBlockComment(s) ==> |StripBlockComments(s)| < |s|
  {
    if HasBlockComment(s) {
      BlockStripShortens(s);
    } else {
      NoBlockUnchanged(s);
    }
  }

  lemma {:induction false} BlockStripShortens(s: string)
    requires HasBlockComment(s)
    ensures |StripBlockComments(s)| < |s|
    decreases |s|
  {
    var i, j :| 0 <= i && i + 2 <= j <= |s| && OccursAt(s, "/*", i) && OccursAt(s, "*/", j);
    if !(s[0] == '/' && s[1] == '*' && FindFrom(s, "*/", 2).Some?) {
      assert i > 0;
      var t := s[1..];
      assert t[i - 1..i + 1] == s[i..i + 2];
      assert t[j - 1..j + 1] == s[j..j + 2];
      assert OccursAt(t, "/*", i - 1) && OccursAt(t, "*/", j - 1);
      BlockStripShortens(t);
    }
  }

  lemma {:induction false} NoBlockUnchanged(s: string)
    requires !HasBlockComment(s)
    ensures StripBlockComments(s) == s
    decreases |s|
  {
    if |s| >= 2 {
      if s[0] == '/' && s[1] == '*' && FindFrom(s, "*/", 2).Some? {
        BlockAtStart(s);
      } else {
        var t := s[1..];
        forall i, j | 0 <= i && i + 2 <= j <= |t|
          ensures !(OccursAt(t, "/*", i) && OccursAt(t, "*/", j))
        {
          assert s[i + 1..i + 3] == t[i..i + 2];
          if j + 2 <= |t| {
            assert s[j + 1..j + 3] == t[j..j + 2];
          }
          assert !(OccursAt(s, "/*", i + 1) && OccursAt(s, "*/", j + 1));
        }
        NoBlockUnchanged(t);
        assert s == [s[0]] + t;
      }
    }
  }

  lemma BlockAtStart(s: string)
    requires |s| >= 2 && s[0] == '/' && s[1] == '*' && FindFrom(s, "*/", 2).Some?
    ensures HasBlockComment(s)
  {
    var j := FindFrom(s, "*/", 2).value;
    assert s[0..2] == "/*";
    assert OccursAt(s, "/*", 0) && OccursAt(s, "*/", j);
  }

  /** The characters other than newlines, in order. */
  function NonNewlines(s: string): (r: string)
    ensures NoNewline(r)
    ensures |r| <= |s|
  {
    if |s| == 0 then []
    else if s[0] == '\n' then NonNewlines(s[1..])
    else [s[0]] + NonNewlines(s[1..])
  }

  lemma {:induction false} NonNewlinesOfRun(s: string)
    ensures NonNewlines(DropNewlines(s)) == NonNewlines(s)
    decreases |s|
  {
    if |s| > 0 && s[0] == '\n' {
      NonNewlinesOfRun(s[1..]);
    }
  }

  /** The third substitution touches nothing but newline runs: the text between
      them comes through unchanged, and so does a string with no blank run. */
  lemma {:induction false} CollapseKeepsText(s: string)
    ensures NonNewlines(CollapseNewlines(s)) == NonNewlines(s)
    decreases |s|
  {
    if |s| == 0 {
    } else if s[0] == '\n' {
      var d := DropNewlines(s);
      CollapseKeepsText(d);
      NonNewlinesOfRun(s);
      assert ("\n" + CollapseNewlines(d))[1..] == CollapseNewlines(d);
    } else {
      CollapseKeepsText(s[1..]);
      assert ([s[0]] + CollapseNewlines(s[1..]))[1..] == CollapseNewlines(s[1..]);
    }
  }

  /** The third substitution is the identity exactly on strings without a blank run. */
  lemma CollapseFixpoints(s: string)
    ensures CollapseNewlines(s) == s <==> NoBlankRun(s)
  {
    if NoBlankRun(s) {
      NoBlankRunUnchanged(s);
    }
  }

  lemma {:induction false} NoBlankRunUnchanged(s: string)
    requires NoBlankRun(s)
    ensures CollapseNewlines(s) == s
    decreases |s|
  {
    if |s| > 0 {
      assert NoBlankRun(s[1..]) by {
        forall i | 0 <= i < |s[1..]| - 1
          ensures !(s[1..][i] == '\n' && s[1..][i + 1] == '\n')
        {
          assert s[1..][i] == s[i + 1] && s[1..][i + 1] == s[i + 2];
        }
      }
      NoBlankRunUnchanged(s[1..]);
      if s[0] == '\n' {
        assert |s| == 1 || s[1] != '\n';
        assert DropNewlines(s) == s[1..];
      }
      assert s == [s[0]] + s[1..];
    }
  }

  /** Stripping is not idempotent: a block comment can be formed out of the
      pieces left around one that was removed. */
  lemma NotIdempotent()
    ensures RemoveComments("//**/**/") == "/**/"
    ensures RemoveComments("/**/") == ""
  {
    FirstRound("//**/**/");
    SecondRound("/**/");
  }

  lemma FirstRound(code: string)
    requires code == "//**/**/"
    ensures RemoveComments(code) == "/**/"
  {
    RemoveCommentsSteps(code);
    NoNewlineOfFirst(code);
    NewlineFreeUnchanged(code);
    StripFirstPass(code);
    NewlineFreeCollapseUnchanged("/**/");
  }

  lemma SecondRound(once: string)
    requires once == "/**/"
    ensures RemoveComments(once) == ""
  {
    RemoveCommentsSteps(once);
    NoNewlineOfSecond(once);
    NewlineFreeUnchanged(once);
    var noBlock := StripBlockComments(StripLineComments(once));
    StripSecondPass(once);
    assert noBlock == "";
  }

  lemma NoNewlineOfSecond(once: string)
    requires once == "/**/"
    ensures NoNewline(once)
  {
    assert '\n' !in once;
  }

  lemma NoNewlineOfFirst(code: string)
    requires code == "//**/**/"
    ensures NoNewline(code)
  {
    assert '\n' !in code;
  }

  /** `RemoveComments` is the three passes in turn. */
  lemma RemoveCommentsSteps(code: string)
    ensures RemoveComments(code) == CollapseNewlines(StripBlockComments(StripLineComments(code)))
  {
  }

  lemma StripFirstPass(code: string)
    requires code == "//**/**/"
    ensures StripBlockComments(code) == "/**/"
  {
    FirstPieces(code);
    StripAfterSlash(code[5..]);
    TailCopied(code[5..]);
  }

  lemma FirstPieces(code: string)
    requires code == "//**/**/"
    ensures code == "/" + ("/**/" + code[5..]) && code[5..] == "**/" && "/" + code[5..] == "/**/"
  {
  }

  /** A slash kept in front of an empty block comment, which is dropped. */
  lemma StripAfterSlash(u: string)
    ensures StripBlockComments("/" + ("/**/" + u)) == "/" + StripBlockComments(u)
  {
    var s := "/" + ("/**/" + u);
    BlockSkip(s);
    assert s[1..] == "/**/" + u;
    BlockCommentAtFront(u);
  }

  /** Without an opening slash-star in front, the first character is kept. */
  lemma BlockSkip(s: string)
    requires |s| >= 2 && !(s[0] == '/' && s[1] == '*')
    ensures StripBlockComments(s) == [s[0]] + StripBlockComments(s[1..])
  {
  }

  /** An empty block comment in front is dropped. */
  lemma BlockCommentAtFront(u: string)
    ensures StripBlockComments("/**/" + u) == StripBlockComments(u)
  {
    var s := "/**/" + u;
    assert s[2..4] == "*/";
    assert FindFrom(s, "*/", 2) == Some(2);
    assert s[4..] == u;
  }

  lemma TailCopied(u: string)
    requires u == "**/"
    ensures StripBlockComments(u) == u
  {
    BlockSkip(u);
    var v := u[1..];
    assert v == "*/";
    BlockSkip(v);
    assert v[1..] == "/";
  }

  lemma StripSecondPass(once: string)
    requires once == "/**/"
    ensures StripBlockComments(once) == ""
  {
    BlockCommentAtFront("");
    assert once == "/**/" + "";
  }

  // ---------------------------------------------------------------------------
  // What the first two passes keep and what they drop

  /** Text without a slash is copied through by the first pass, whatever
      follows it. */
  lemma {:induction false} LinePrefixKept(a: string, b: string)
    requires forall k :: 0 <= k < |a| ==> a[k] != '/'
    ensures StripLineComments(a + b) == a + StripLineComments(b)
    decreases |a|
  {
    if |a| == 0 {
      assert a + b == b;
    } else {
      assert a + b == [a[0]] + (a[1..] + b);
      LineFirstKept(a[0], a[1..] + b);
      LinePrefixKept(a[1..], b);
      KeptInFront(a, StripLineComments(a + b), StripLineComments(a[1..] + b), StripLineComments(b));
    }
  }

  /** A character in front that does not open a line comment is kept: any
      character but a slash, and a slash not followed by another. */
  lemma LineFirstKept(c: char, t: string)
    requires !(c == '/' && |t| > 0 && t[0] == '/')
    ensures StripLineComments([c] + t) == [c] + StripLineComments(t)
  {
    var s := [c] + t;
    assert s[1..] == t;
    if |t| == 0 {
      assert s == [c];
    }
  }

  /** A line comment and the newline ending it become that newline; the
      first pass then goes on with the text after it. */
  lemma LineCommentDropped(c: string, b: string)
    requires NoNewline(c)
    ensures StripLineComments("//" + c + "\n" + b) == "\n" + StripLineComments(b)
  {
    var s := "//" + c + "\n" + b;
    var e := 2 + |c|;
    assert s[e..e + 1] == "\n";
    forall k | 2 <= k < e
      ensures !OccursAt(s, "\n", k)
    {
      assert s[k..k + 1][0] == s[k] == c[k - 2];
    }
    FindFromIs(s, "\n", 2, e);
    assert s[0] == '/' && s[1] == '/';
    assert s[e + 1..] == b;
  }

  /** Text without a slash is copied through by the second pass, whatever
      follows it. */
  lemma {:induction false} BlockPrefixKept(a: string, b: string)
    requires forall k :: 0 <= k < |a| ==> a[k] != '/'
    ensures StripBlockComments(a + b) == a + StripBlockComments(b)
    decreases |a|
  {
    if |a| == 0 {
      assert a + b == b;
    } else {
      assert a + b == [a[0]] + (a[1..] + b);
      BlockFirstKept(a[0], a[1..] + b);
      BlockPrefixKept(a[1..], b);
      KeptInFront(a, StripBlockComments(a + b), StripBlockComments(a[1..] + b), StripBlockComments(b));
    }
  }

  /** A character in front that does not open a block comment is kept: any
      character but a slash, and a slash not followed by a star. */
  lemma BlockFirstKept(c: char, t: string)
    requires !(c == '/' && |t| > 0 && t[0] == '*')
    ensures StripBlockComments([c] + t) == [c] + StripBlockComments(t)
  {
    var s := [c] + t;
    assert s[1..] == t;
    if |t| == 0 {
      assert s == [c];
    }
  }

  /** A block comment whose body holds no star-slash is deleted; the second
      pass then goes on with the text after it. */
  lemma BlockCommentDropped(c: string, b: string)
    requires !Contains(c, "*/")
    ensures StripBlockComments("/*" + c + "*/" + b) == StripBlockComments(b)
  {
    var s := "/*" + c + "*/" + b;
    var e := 2 + |c|;
    assert s[e..e + 2] == "*/";
    forall k | 2 <= k < e
      ensures !OccursAt(s, "*/", k)
    {
      if k + 1 < e {
        assert s[k..k + 2] == c[k - 2..k];
        assert !OccursAt(c, "*/", k - 2);
      } else {
        assert s[k..k + 2][1] == s[e] == '*';
      }
    }
    FindFromIs(s, "*/", 2, e);
    assert s[0] == '/' && s[1] == '*';
    assert s[e + 2..] == b;
  }

  /** The first character kept in front of a kept rest: the whole prefix is
      kept in front. */
  lemma KeptInFront(a: string, whole: string, tailDone: string, rest: string)
    requires |a| > 0
    requires whole == [a[0]] + tailDone
    requires tailDone == a[1..] + rest
    ensures whole == a + rest
  {
    assert a == [a[0]] + a[1..];
  }

  /** Step 3 keeps a character other than a newline in front. */
  lemma CollapseFirstKept(c: char, t: string)
    requires c != '\n'
    ensures CollapseNewlines([c] + t) == [c] + CollapseNewlines(t)
  {
    var s := [c] + t;
    assert s[1..] == t;
  }

  /** Dropping the newlines of a run stops at the first other character. */
  lemma {:induction false} DropRun(run: string, b: string)
    requires forall k :: 0 <= k < |run| ==> run[k] == '\n'
    requires |b| == 0 || b[0] != '\n'
    ensures DropNewlines(run + b) == b
    decreases |run|
  {
    if |run| == 0 {
      assert run + b == b;
    } else {
      assert (run + b)[1..] == run[1..] + b;
      DropRun(run[1..], b);
    }
  }

  /** Step 3 turns a whole run of newlines into one newline and goes on with
      the text after the run. */
  lemma CollapseRun(run: string, b: string)
    requires |run| > 0
    requires forall k :: 0 <= k < |run| ==> run[k] == '\n'
    requires |b| == 0 || b[0] != '\n'
    ensures CollapseNewlines(run + b) == "\n" + CollapseNewlines(b)
  {
    var s := run + b;
    assert s[0] == run[0];
    DropRun(run, b);
  }
}
