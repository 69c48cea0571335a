/** The two `pathlib.PurePath` properties the pipeline reads off a file name:
    `suffix` (the extension, dot included) and `stem` (the name without it).
    A name's extension starts at its last dot, provided that dot is neither the
    first character (a hidden file such as `.c` has no extension) nor the last. */
module Paths {
  import opened Strings

  /** The index of the dot that starts the extension, or -1 when there is none. */
  function ExtensionDot(name: string): (r: int)
    ensures r == -1 || (0 < r < |name| - 1 && name[r] == '.')
    ensures 0 <= r ==> forall k :: r < k < |name| ==> name[k] != '.'
  {
    var i := LastIndexOf(name, '.');
    if 0 < i < |name| - 1 then i else -1
  }

  /** `Path(name).suffix`. */
  function Suffix(name: string): string {
    var i := ExtensionDot(name);
    if i < 0 then "" else name[i..]
  }

  /** `Path(name).stem`. */
  function Stem(name: string): string {
    var i := ExtensionDot(name);
    if i < 0 then name else name[..i]
  }

  /** pathlib's invariant: a name is its stem followed by its suffix, and the
      suffix, when present, is a dot followed by at least one dot-free character. */
  lemma StemThenSuffix(name: string)
    ensures Stem(name) + Suffix(name) == name
    ensures Suffix(name) == "" || (|Suffix(name)| >= 2 && Suffix(name)[0] == '.')
    ensures forall k :: 0 < k < |Suffix(name)| ==> Suffix(name)[k] != '.'
    ensures |Stem(name)| > 0 || name == ""
  {
    var i := ExtensionDot(name);
    if 0 <= i {
      assert name[..i] + name[i..] == name;
    }
  }

  /** A simple extension `ext` (a dot and at least one further, dot-free
      character) is the suffix of `name` exactly when `name` ends with it and
      has at least one character before it. */
  lemma SuffixIs(name: string, ext: string)
    requires |ext| >= 2 && ext[0] == '.'
    requires forall k :: 0 < k < |ext| ==> ext[k] != '.'
    ensures Suffix(name) == ext <==> |name| > |ext| && EndsWith(name, ext)
    ensures |name| > |ext| && EndsWith(name, ext) ==> Stem(name) == name[..|name| - |ext|]
  {
    var d := |name| - |ext|;
    if |name| > |ext| && EndsWith(name, ext) {
      assert name[d] == ext[0];
      forall k | d < k < |name|
        ensures name[k] != '.'
      {
        assert name[k] == ext[k - d];
      }
      assert LastIndexOf(name, '.') == d;
    }
    if Suffix(name) == ext {
      var i := ExtensionDot(name);
      assert i >= 0;
      assert |name| - i == |ext|;
    }
  }
}
