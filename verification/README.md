# C-to-Rust corpus pipeline: a Dafny model

This project models the text and list logic of a small C-to-Rust training-data
pipeline and proves properties of it.

- **Corpus loader** (`CRUSTLoader` in `src/crust_loader.py`):
  - it strips comments from C sources;
  - it keeps the `.c` and `.h` files outside test, example, bin and unity
    directories, sorted by file name;
  - it folds each header `x.h` into its source `x.c`;
  - it pairs the merged C records with the Rust interface stubs of the same
    file-name stem;
  - it splits the pairs into a training and a validation batch.
- **Pseudo-labelling script** (`src/pseudo_label.py`):
  - it pulls the C snippet out of a fenced prompt;
  - it builds the user message sent to the model;
  - it rewrites the stage-one instruction;
  - it wraps the model's answer as a completion.

Modules, one per file:

| file | module | models |
|---|---|---|
| `wrappers.dfy` | `Wrappers` | `Option` |
| `strings.dfy` | `Strings` | substring occurrence and leftmost search (`str.find`), Python's code-point order on `str` |
| `paths.dfy` | `Paths` | `PurePath.suffix` and `PurePath.stem` |
| `comments.dfy` | `Comments` | `remove_comments`: the three `re.sub` passes as left-to-right scans |
| `records.dfy` | `Records` | the `{file_name, content}` record, stable `sorted` by name (both directions), the name dictionaries |
| `collector.dfy` | `Collector` | the filter and sort of `get_c_files` |
| `merger.dfy` | `Merger` | `process_c_and_h` |
| `matcher.dfy` | `Matcher` | `load_rust_interfaces` and `get_interface_pairs` |
| `exporter.dfy` | `Exporter` | the `cut` split of `export_jsonl` |
| `pseudo_label.dfy` | `PseudoLabel` | `extract_c_code`, the `transpile` user message, the instruction rewrite, the completion, the loop of `main` |

Each regular expression is written out as the scan `re.sub` or `re.search`
performs. There is no general regex engine.

Two behaviours of the code worth knowing; the model follows the code in
both:

- `remove_comments` is **not** idempotent. `Comments.NotIdempotent` proves it:
  `"//**/**/"` strips to `"/**/"`, and that strips to `""`. The input has no newline, so
  step 1 leaves it unchanged. Step 2 keeps the first `/`, deletes the block
  `/**/` that starts at index 1, and keeps the trailing `**/`; the kept `/`
  and `**/` join into a new block `/**/`, which only a second strip removes.
- Files are read with `errors="ignore"`. Undecodable bytes are dropped, not
  replaced. Decoding is outside the model anyway, because the input is
  already text.

## Model

| member | source | states |
|---|---|---|
| `Comments.StripLineComments` | src/crust_loader.py:16 | the first substitution never lengthens its input |
| `Comments.LinePrefixKept` | src/crust_loader.py:16 | text without a `/` is copied unchanged by the first substitution, which then goes on with what follows |
| `Comments.LineFirstKept` | src/crust_loader.py:16 | a first character that opens no line comment (anything but a slash, or a slash not followed by a second one) is kept, and the first substitution goes on with the rest |
| `Comments.LineCommentDropped` | src/crust_loader.py:16 | a `//` comment up to and including the first newline becomes that one newline, and the first substitution goes on after it |
| `Comments.LineStripFixpoints` | src/crust_loader.py:16 | the first substitution leaves a text unchanged exactly when no `//` in it is followed later by a newline |
| `Comments.StripBlockComments` | src/crust_loader.py:18 | the second substitution never lengthens its input and only keeps characters of it |
| `Comments.BlockPrefixKept` | src/crust_loader.py:18 | text without a `/` is copied unchanged by the second substitution, which then goes on with what follows |
| `Comments.BlockFirstKept` | src/crust_loader.py:18 | a first character that opens no block comment (anything but a slash, or a slash not followed by a star) is kept, and the second substitution goes on with the rest |
| `Comments.BlockCommentDropped` | src/crust_loader.py:18 | a block comment whose body holds no star-slash is deleted whole, and the second substitution goes on after it |
| `Comments.BlockStripFixpoints` | src/crust_loader.py:18 | the second substitution leaves a text unchanged exactly when it holds no complete slash-star ... star-slash block, and otherwise shortens it |
| `Comments.CollapseNewlines` | src/crust_loader.py:20 | the third substitution leaves no two adjacent newlines, never lengthens, and keeps the first character |
| `Comments.CollapseFirstKept` | src/crust_loader.py:20 | a first character other than a newline is kept, and the third substitution goes on with the rest |
| `Comments.CollapseRun` | src/crust_loader.py:20 | a whole run of newlines becomes exactly one newline, and the third substitution goes on with the text after the run |
| `Comments.CollapseKeepsText` | src/crust_loader.py:20 | the third substitution only removes newlines: the non-newline characters stay, in order |
| `Comments.CollapseFixpoints` | src/crust_loader.py:20 | the third substitution leaves a text unchanged exactly when it has no run of two or more newlines |
| `Comments.RemoveComments` | src/crust_loader.py:13-20 | the result is no longer than the code, has no two adjacent newlines and no `//` followed later by a newline; code without any `/` is changed only by collapsing newline runs |
| `Comments.NoSlashUnchanged` | src/crust_loader.py:14-18 | without a `/` in the text, the two comment-stripping passes change nothing |
| `Comments.NotIdempotent` | src/crust_loader.py:14-20 | stripping a second time can change the result again |
| `Paths.StemThenSuffix` | src/crust_loader.py:32 | a name is its stem followed by its suffix; a non-empty suffix is a dot followed by dot-free characters |
| `Paths.SuffixIs` | src/crust_loader.py:32 | a name has suffix `.c` (or `.h`) exactly when it ends with it and has a character before it; the stem is then the name without it |
| `Strings.LexLessTotal` | src/crust_loader.py:40 | Python's string order is total: of two different strings one sorts first |
| `Strings.LexLessTransitive` | src/crust_loader.py:40 | Python's string order is transitive |
| `Strings.SourceSortsBeforeHeader` | src/crust_loader.py:51-52 | `x.c` sorts strictly before `x.h`, so the descending walk meets the header first |
| `Records.SortBy` | src/crust_loader.py:52 | `sorted(..., reverse=...)` returns a permutation of its input, ordered by file name in the requested direction |
| `Records.SortByName` | src/crust_loader.py:40 | `sorted(..., key=file_name)` returns an ascending permutation with the same names, and keeps names distinct |
| `Records.ContentByKey` | src/crust_loader.py:109 | a dictionary comprehension has exactly the keys of the records; each value comes from a record with that key, and the last such record wins |
| `Records.ContentByName` | src/crust_loader.py:47 | `c_map` has exactly the input names; each entry is an input record, and with distinct names it holds each record's content |
| `Collector.Kept` | src/crust_loader.py:29-38 | a record is kept exactly for a walked file that passes both tests, with its comments stripped |
| `Collector.KeptAppend` | src/crust_loader.py:29-38 | the loop appends in walk order: the records of a walk split in two are those of the first part followed by those of the second |
| `Collector.KeptOne` | src/crust_loader.py:30-38 | one walked file adds exactly one record, its name with the stripped text, when it passes both tests, and none otherwise |
| `Collector.CollectCFiles` | src/crust_loader.py:22-40 | the result is sorted by name, a permutation of the kept records, no longer than the walk, and holds exactly the records of collected files |
| `Collector.CollectedExactly` | src/crust_loader.py:32-34 | a file is collected exactly when its name ends in `.c` or `.h` after at least one character and no path segment is an excluded name |
| `Collector.CollectedContentStripped` | src/crust_loader.py:32-37 | every collected record has a `.c` or `.h` name and comment-stripped content: no blank line run and no `//` followed later by a newline |
| `Merger.MergedContent` | src/crust_loader.py:58-63 | a merged text starts with the header marker, ends with the source text unchanged, and holds the header text, then the closing line `\n*/\n`, right before the source |
| `Merger.MergeLoop` | src/crust_loader.py:52-70 | the loop emits at most one record per visited record |
| `Merger.LoopIsEmitAll` | src/crust_loader.py:52-70 | the stateful loop, with its `visited` set, emits record for record what the stateless per-record rule gives: headers with their source merged, sources with a header dropped, all else unchanged |
| `Merger.ProcessCAndH` | src/crust_loader.py:42-73 | the result is sorted by name and no longer than the input |
| `Merger.ProcessMembers` | src/crust_loader.py:47-73 | for distinct names the output names are distinct, and the output holds exactly the records the per-record rule gives for the inputs |
| `Merger.ProcessNames` | src/crust_loader.py:47-73 | for distinct names the output is sorted with distinct names, and its names are the input names minus every `x.h` whose `x.c` is present |
| `Merger.ProcessContents` | src/crust_loader.py:52-70 | each present `x.h`/`x.c` pair comes out as one `x.c` with the merged text; every other record passes through unchanged; nothing else comes out |
| `Merger.FooMerges` | src/crust_loader.py:42-73 | `foo.c` and `foo.h` come out as the single record `foo.c` with the header folded in |
| `Matcher.RustFiles` | src/crust_loader.py:82 | the glob keeps exactly the listed files whose name ends in `.rs` |
| `Matcher.RustFilesAppend` | src/crust_loader.py:82 | the glob keeps listing order: the stubs of a listing split in two are those of the first part followed by those of the second |
| `Matcher.RustFilesOne` | src/crust_loader.py:82 | one listed file is selected once and unmodified when its name ends in `.rs`, and not at all otherwise |
| `Matcher.LoadInterfaces` | src/crust_loader.py:75-84 | the stubs are the glob's `.rs` files, unmodified, each as often as the glob yields it, sorted by name |
| `Matcher.ContentByStem` | src/crust_loader.py:109 | the stem dictionary has exactly the stems of the merged records, each mapped to the content of a record of that stem |
| `Matcher.MatchStubs` | src/crust_loader.py:110-115 | at most one pair per stub, each pairing a stub's content with the C content stored under that stub's stem |
| `Matcher.MatchStubsAppend` | src/crust_loader.py:110-115 | pairs follow the stub order: matching a concatenation of stub lists concatenates the pairs |
| `Matcher.UnmatchedStubsAddNothing` | src/crust_loader.py:111-112 | stubs whose stem no C record has add no pair |
| `Matcher.AllStubsMatched` | src/crust_loader.py:110-115 | every stub yields a pair exactly when every stem is matched, and the i-th pair then carries the i-th stub |
| `Matcher.ProjectPairs` | src/crust_loader.py:103-115 | a project yields at most one pair per stub; each pair is the content of a merged C record and of a stub with the same stem |
| `Matcher.MatchOrigins` | src/crust_loader.py:109-115 | each pair joins a C record and a stub of one stem, for any record and stub lists |
| `Matcher.MergedRecords` | src/crust_loader.py:104-105 | the merged C records of a project are sorted by name and no more than its walked files |
| `Matcher.InterfacePairs` | src/crust_loader.py:97-116 | every pair of the corpus comes from one of the projects, and every pair of every project is in the corpus |
| `Matcher.InterfacePairsAppend` | src/crust_loader.py:102-116 | the pairs come project after project: the pairs of a project list split in two are those of the first part followed by those of the second |
| `Matcher.InterfacePairsOne` | src/crust_loader.py:103-115 | one project contributes exactly its own pairs |
| `Matcher.MergedStemsDistinct` | src/crust_loader.py:104-109 | with distinct collected names, no two merged records share a stem, so the stem dictionary loses no record |
| `Matcher.PairsUseTheMatchingRecord` | src/crust_loader.py:103-115 | with distinct collected names, the C text of each pair is that of the only merged record with the stub's stem |
| `Matcher.BarHasNoPairs` | src/crust_loader.py:103-115 | a stub `bar.rs` in a project with no C files yields no pair |
| `Exporter.ToExamples` | src/crust_loader.py:122-124 | one example per pair, in pair order, carrying the pair's two texts |
| `Exporter.Cut` | src/crust_loader.py:126 | `cut` is the floor of the pair count times the split fraction |
| `Exporter.Split` | src/crust_loader.py:127 | the two batches concatenate back to the examples, and the first has `min(cut, len)` of them |
| `Exporter.Export` | src/crust_loader.py:118-127 | the training and validation batches partition the examples |
| `Exporter.ExportSizes` | src/crust_loader.py:126-127 | for a split of at most one the training batch holds exactly `floor(n * split)` examples; for a split of at least one the validation batch is empty |
| `Exporter.DefaultSplitOfTen` | src/crust_loader.py:118-127 | the default split 0.9 puts nine of ten pairs in training and the last in validation |
| `PseudoLabel.SearchFrom` | src/pseudo_label.py:12 | the search returns the leftmost start where the pattern matches and the first closing fence after that opener, or nothing when no start matches |
| `PseudoLabel.ExtractCCode` | src/pseudo_label.py:10-13 | without a fenced block the prompt comes back unchanged; with one, the result sits at the first opening fence, wrapped as opening fence + result + fence, no fence starts before that closing one (the lazy `.*?`), and the result holds no fence |
| `PseudoLabel.TranspileMessage` | src/pseudo_label.py:20 | the message is the instruction and the opening C fence, then exactly the snippet, then a closing fence |
| `PseudoLabel.ExtractTranspileMessage` | src/pseudo_label.py:10-20 | extracting from the message `transpile` builds returns the snippet, when it holds no fence and does not end in a backtick |
| `PseudoLabel.TrailingBacktickIsLost` | src/pseudo_label.py:10-20 | a snippet ending in a backtick comes back without it |
| `PseudoLabel.ReplaceAll` | src/pseudo_label.py:42-45 | `str.replace` changes nothing when the target is absent, and otherwise puts the replacement in; a longer replacement lengthens the text |
| `PseudoLabel.ReplaceAllAtFirst` | src/pseudo_label.py:42-45 | `str.replace` is the text before the first occurrence, the replacement, then the rest after that occurrence replaced in turn |
| `PseudoLabel.ReplaceAllByFind` | src/pseudo_label.py:42-45 | the same recursion through `find`: no occurrence found leaves the text unchanged, otherwise the one found is replaced and the rest is replaced after it |
| `PseudoLabel.ReplacedHasNoTarget` | src/pseudo_label.py:42-45 | when the replacement cannot overlap the target, no occurrence of the target is left after `replace` |
| `PseudoLabel.InstructionsCannotOverlap` | src/pseudo_label.py:43-44 | the two instruction sentences cannot overlap: each holds a capital `T` only at its start, and they differ at the word after "Translate" |
| `PseudoLabel.RewriteInstruction` | src/pseudo_label.py:41-45 | the rewrite leaves a prompt without the stage-one instruction unchanged, otherwise puts the new instruction in, and never leaves a stage-one instruction behind |
| `PseudoLabel.RewriteChangesExactlyStageOne` | src/pseudo_label.py:42-45 | the rewrite changes a prompt exactly when it holds the stage-one instruction |
| `PseudoLabel.Completion` | src/pseudo_label.py:46 | a completion starts with the Rust fence and ends with the closing fence and end-of-text marker |
| `PseudoLabel.CompletionUnwraps` | src/pseudo_label.py:46 | the body of a wrapped answer is that answer |
| `PseudoLabel.CompletionRewraps` | src/pseudo_label.py:46 | a completion-shaped text is the wrapping of its own body |
| `PseudoLabel.Label` | src/pseudo_label.py:39-47 | an example's prompt is the rewritten prompt, and its completion wraps the model's answer for the extracted snippet |
| `PseudoLabel.LabelAll` | src/pseudo_label.py:37-47 | one example per input line, in order |
| `PseudoLabel.LabelOfTranspileMessage` | src/pseudo_label.py:39-46 | a prompt built like the `transpile` message is answered on exactly the snippet it carries |

## Left out

- Directory walking and reading are not modelled: `rglob`, `is_file`, `iterdir`, `exists`, `glob` on disk, `read_text`. The inputs are given sequences of files, each with its path segments, name and text. The order of the walk and of the project listing is whatever the caller passes.
- Writing the JSONL files, `mkdir` and `open` are not modelled. `json.dumps` escaping is not modelled either: an example is kept as a record of two strings.
- `load_rust_bins` is not modelled. It is unused, and it only repeats `load_rust_interfaces` on another directory.
- The separator-less write of `main` in `src/pseudo_label.py` is I/O and is left out.
- The model call in `transpile` and the OpenAI client are a parameter `transpile: string -> string`. So is the model's answer.
- `src/evaluate.py` is not part of this model. It shells out to `rustc`, computes floating-point BLEU scores through nltk, and calls the OpenAI API.
- Exporter.Cut: `split` is the exact rational `num / den`, not a float. `int(len(exs) * split)` on a float may differ from the exact floor where the product lands just beside an integer. A negative split is excluded by `num` being a natural number; Python would slice from the end.
- The file-name suffix and stem follow the `pathlib` rule of Python 3.13 and earlier (the last dot, if it is neither the first nor the last character). Later changes to `suffix` for names ending in a dot are not modelled.
- Records.SortByName: sortedness and permutation are proved. Stability (equal names keep their input order) is how the insertion sort is written, but it is not stated as a contract.
- Merger.ProcessCAndH: the operation is defined for every input, including repeated names, where `c_map` keeps the last record. Its properties beyond sortedness and length are proved only for inputs with distinct names (`ProcessMembers`, `ProcessNames`, `ProcessContents`).
- Matcher.ProjectPairs: with repeated stems the stem dictionary keeps the last merged record. The per-record uniqueness is proved only for distinct collected names (`PairsUseTheMatchingRecord`).
- PseudoLabel.ReplaceAll: requires a non-empty target. The only call site replaces a fixed non-empty sentence. Python's empty-target behaviour (insert between every character) is not modelled. Its own ensures fix only absence, presence and length; the exact result is fixed by `ReplaceAllAtFirst` and `ReplaceAllByFind`.
