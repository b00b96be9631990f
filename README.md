# git_diff_parser: the `Patches` scanner and collection

This project models `GitDiffParser::Patches` from the Ruby gem
`git_diff_parser`.

- `Patches.parse` cuts the text of `git diff` into lines and strips each line's terminator.
- It then runs a small state machine over the lines. The state is the in-body flag, the file name, the prior file name, a buffer of hunk lines and the kind of change.
- Each time a section's buffer is flushed, it emits one `Patch`. A flush happens at a later `diff` line, or at the input's last line when that line is a hunk line.
- The collection offers `files`, `secure_hashes`, `find_patch_by_file` and `find_patch_by_secure_hash`.

Modules:

- `Wrappers`: `Option`. Ruby's `nil` is `None`.
- `RubyText`: the string operations the scanner relies on.
  - `String#lines` (split just after each "\n") and `String#chomp` (drop one "\r\n", "\n" or "\r").
  - `join("\n")`, and a prefix test standing for the anchored patterns.
- `PatchRecord`: the `Patch` record as the scanner builds it, and its raw text `lines.join("\n") + "\n"`.
- `DiffScanner`: the scan as functions.
  - `Classify` is the `case` statement: the first pattern a chomped line matches.
  - `Step` is what one line does to the state.
  - `Run` is the scan of a list of lines.
  - `ParseText` is the whole of `parse` on a string.
- `GitDiffParser`: the `Patches` collection.
  - `Patches.Parse` is the loop of `parse`, written as the source writes it, over mutable locals. It is proved to compute `ParseText`.
  - The four queries are functions on the collection.
  - `Patches[...]` and `Patches.new(list)` both wrap a list; here they are the datatype's constructor applied to that list.
- `ScannerProperties`: what the scan guarantees for every input.
  - Which lines reach patches, and in what order.
  - The count bound.
  - When the tail flush fires.
  - What each header line does.
- `WellFormedDiffs`: `git diff` output built from well-formed file sections. On such output, `parse` returns exactly one patch per section that has hunk lines, with that section's paths and kind.

Where the code and the commonly stated behaviour of the parser differ, the model follows the code (`lib/git_diff_parser/patches.rb`):

- `--- /dev/null` and `+++ /dev/null` are prefix patterns, like the others. They are not exact-line matches.
- A `diff` line always clears the in-body flag. It emits a patch, and resets the names and the kind, only when the buffer holds lines. A section with an empty buffer yields no patch.
- The tail flush is inside the body-line branch. It fires only when the input's last line is itself a hunk line met in a body. A trailing blank line, or any last line that matches no pattern, leaves the pending buffer unemitted (`TrailingIgnoredLineDropsPending`, `TrailingBlankLineExample`).
- The tail flush does not clear the in-body flag. Nothing can observe this, because it happens on the last line.

## Model

| member | source | states |
|---|---|---|
| RubyText.Lines | lib/git_diff_parser/patches.rb:20 | The pieces concatenate back to the text. None is empty. Every piece but the last ends in '\n', and no piece holds '\n' before its end. |
| RubyText.Chomp | lib/git_diff_parser/patches.rb:25 | The result is the line minus exactly one trailing "\r\n", "\n" or "\r", or the line itself when it has none of them. |
| RubyText.ChompAll | lib/git_diff_parser/patches.rb:25 | One chomped line per line, in order. Each is its line's `Chomp`: a prefix of the line, at most two characters shorter. |
| RubyText.Join | lib/git_diff_parser/patches.rb:29 | No contract of its own: `Array#join("\n")`. Its meaning is stated by `JoinThenNewline`. |
| RubyText.JoinThenNewline | lib/git_diff_parser/patches.rb:29 | `join("\n") + "\n"` of a non-empty list is every element followed by its own '\n'. |
| RubyText.LinesOfTerminated | lib/git_diff_parser/patches.rb:20 | Cutting lines that each end in one '\n' gives back each line with its '\n'. |
| RubyText.ChompedLinesHaveNoNewline | lib/git_diff_parser/patches.rb:20-25 | No chomped line of any text holds '\n'. |
| RubyText.ChompedLinesOfTerminated | lib/git_diff_parser/patches.rb:20-25 | Cutting and chomping '\n'-terminated lines, with no '\n' and no trailing '\r', gives back exactly those lines. |
| PatchRecord.Patch.Body | lib/git_diff_parser/patches.rb:28-33 | The raw text handed to `Patch.new` is never empty and ends in '\n'. For a non-empty buffer it is every line followed by one '\n'; for an empty one it is "\n" alone. |
| PatchRecord.BodyLinesRoundTrip | lib/git_diff_parser/patches.rb:29 | Re-cutting a patch's raw text gives back its buffered lines in order, each with its '\n'. |
| DiffScanner.Classify | lib/git_diff_parser/patches.rb:25-57 | A `diff` line is a section start exactly when it starts with "diff". `--- a/` and `+++ b/` lines carry the rest of the line as the path. The `/dev/null` kinds start with their prefix and not the a/ or b/ one. A body line starts with a body mark. An unmatched line is empty or starts with none. |
| DiffScanner.ClassifyHeaders | lib/git_diff_parser/patches.rb:26-55 | Every line of each header shape is classified as that header, whatever follows the prefix, with that text as its path. |
| DiffScanner.Flush | lib/git_diff_parser/patches.rb:28-37 | Exactly one patch is appended, after the ones already emitted. It holds the buffer, both names and the kind. Everything but the in-body flag returns to its initial value (`Start`, patches.rb:14-18): empty buffer, both names '', kind change. |
| DiffScanner.Apply | lib/git_diff_parser/patches.rb:25-71 | The transition for one line of a given kind. `diff` leaves the body; either `+++` enters it; other lines keep the flag. Emitted patches stay, and at most one is added, only by a `diff` line or by a last body line met in a body. The added patch takes the whole non-empty buffer, including this line when it is a body line met in a body, and the buffer is then empty. Otherwise the buffer grows by the line exactly when it is a body line met in a body. |
| DiffScanner.Step | lib/git_diff_parser/patches.rb:25-71 | No contract of its own: `Apply` on the kind `Classify` gives the chomped line. Its effects are stated by `Apply`'s contract, `HeaderLineEffects`, `StepKeepsLines` and `StepCount`. |
| DiffScanner.Run | lib/git_diff_parser/patches.rb:24-72 | No contract of its own: the fold of `Step` over the lines, the last one told it is last. Stated by `RunAppend`, `RunKeepsBody`, `RunKeepsLines`, `RunKeepsParsed` and `RunCountNotAtEnd`. |
| DiffScanner.ParseLines | lib/git_diff_parser/patches.rb:14-74 | No contract of its own: `Run` from `Start` over chomped lines, returning the emitted patches. Stated by the `ScannerProperties` lemmas and `WellFormedDiffs.ParseRenderedSections`. |
| DiffScanner.ParseText | lib/git_diff_parser/patches.rb:20-25 | `ParseLines` of the chomped lines of the text. The empty text gives no patches. |
| DiffScanner.RunAppend | lib/git_diff_parser/patches.rb:24-72 | Scanning two stretches of lines is scanning the first and then the second. |
| DiffScanner.StepLastOnlyForBodyLine | lib/git_diff_parser/patches.rb:57-71 | Only a body line met in a body behaves differently as the last line, and then it can only add patches. A line no pattern matches leaves the state unchanged. |
| ScannerProperties.StepKeepsLines | lib/git_diff_parser/patches.rb:25-71 | One line moves the in-body flag as its kind says. Emitted plus buffered lines grow by that line exactly when it is a body line met in a body. Emitted patches stay. |
| ScannerProperties.RunKeepsBody | lib/git_diff_parser/patches.rb:39-55 | Over any lines, the in-body flag is the one the `diff` and `+++` lines alone determine. |
| ScannerProperties.RunKeepsLines | lib/git_diff_parser/patches.rb:57-70 | Over any lines, emitted plus buffered lines grow by exactly the body lines met in a body, in order, each once. |
| ScannerProperties.RunKeepsParsed | lib/git_diff_parser/patches.rb:24-72 | Patches already emitted stay, in order, at the front of the result. |
| ScannerProperties.ParsedLinesAreAcceptedLines | lib/git_diff_parser/patches.rb:57-58 | The lines of all returned patches, followed by what remains buffered, are exactly the body lines met in a body. No header or `diff` line ever enters a patch. |
| ScannerProperties.RunKeepsPatchesBuffered | lib/git_diff_parser/patches.rb:27-29 | Given lines free of '\n', every emitted patch has a non-empty buffer free of '\n'. |
| ScannerProperties.ParsedPatchesAreBuffered | lib/git_diff_parser/patches.rb:27-29 | Every patch `parse` returns has a non-empty buffer. Its raw text cuts back into its lines. |
| ScannerProperties.ParseTextFacts | lib/git_diff_parser/patches.rb:13-75 | Empty text gives no patches. Each patch is non-empty, with '\n'-terminated raw text. There are at most as many patches as `+++` lines. The patches' lines are a prefix of the accepted lines. |
| ScannerProperties.TailFlushEmitsAllAccepted | lib/git_diff_parser/patches.rb:59-70 | When the last line is a body line met in a body, nothing stays pending, and the patches hold every accepted line. |
| ScannerProperties.NoTailFlushUnlessBodyLine | lib/git_diff_parser/patches.rb:59 | When the last line is not a body line, or is a body line arriving outside a body, the scan ends as if more input followed. |
| ScannerProperties.ClosedBufferEmpty | lib/git_diff_parser/patches.rb:26-70 | Outside a body the buffer is empty. This holds from `Start` on over any lines, so a body line arriving last outside a body loses nothing by not flushing. |
| ScannerProperties.TrailingIgnoredLineDropsPending | lib/git_diff_parser/patches.rb:57-71 | A last line matching no pattern leaves the patches emitted before it. The buffer pending before it is not emitted. |
| ScannerProperties.EmittedPatchesStay | lib/git_diff_parser/patches.rb:24-74 | The patches emitted by any prefix of the input, the whole input included, are a prefix of the result. |
| ScannerProperties.StepCount | lib/git_diff_parser/patches.rb:26-70 | One line emits at most one patch, and only from an open section. Before the last line, emitted plus open sections grow only at a `+++` line. |
| ScannerProperties.RunCountNotAtEnd | lib/git_diff_parser/patches.rb:24-72 | Over any lines, emitted plus open sections grow by at most the number of `+++` lines. |
| ScannerProperties.ParsedCountBound | lib/git_diff_parser/patches.rb:47-55 | `parse` returns at most one patch per `+++ b/` or `+++ /dev/null` line. |
| ScannerProperties.HeaderLineEffects | lib/git_diff_parser/patches.rb:26-55 | `diff` clears the body, and flushes and resets only when the buffer is non-empty. `---` lines set only the prior name. `+++ b/` gives add exactly when the prior name is nil, and change otherwise. `+++ /dev/null` gives delete, with the prior name as file. No header line touches the buffer. |
| ScannerProperties.TrailingBlankLineExample | lib/git_diff_parser/patches.rb:57-70 | A one-file diff followed by a blank last line parses to no patches. Without the blank line it parses to one patch. |
| GitDiffParser.Patches.Parse | lib/git_diff_parser/patches.rb:13-75 | The loop over mutable locals returns `ParseText(contents)`. Empty input gives an empty collection. Each patch is non-empty, with '\n'-terminated text. There are at most as many patches as `+++` lines. The patches' lines are a prefix of the accepted lines. |
| GitDiffParser.Patches.Files | lib/git_diff_parser/patches.rb:93-95 | Same length as the collection; element i is patch i's file. |
| GitDiffParser.Patches.SecureHashes | lib/git_diff_parser/patches.rb:98-100 | Same length as the collection; element i is patch i's secure hash. |
| GitDiffParser.Patches.FindPatchByFile | lib/git_diff_parser/patches.rb:105-107 | nil exactly when no patch has the file. Otherwise it is the patch at the first index whose file matches. |
| GitDiffParser.Patches.FindPatchBySecureHash | lib/git_diff_parser/patches.rb:112-114 | nil exactly when no patch has the hash. Otherwise it is the patch at the first index whose hash matches. |
| GitDiffParser.FindByFileAgreesWithFiles | lib/git_diff_parser/patches.rb:93-107 | `find_patch_by_file` finds a patch exactly when the file is in `files`. The patch found is the one at the file's first position there. |
| GitDiffParser.FindBySecureHashAgreesWithSecureHashes | lib/git_diff_parser/patches.rb:98-114 | The same agreement between `find_patch_by_secure_hash` and `secure_hashes`. |
| WellFormedDiffs.IgnoredLinesChangeNothing | lib/git_diff_parser/patches.rb:25-71 | Lines no pattern matches leave the whole state as it was. |
| WellFormedDiffs.HunkRun | lib/git_diff_parser/patches.rb:57-70 | In a body, body lines are appended to the buffer in order. If the last of them ends the input, the buffer is flushed. |
| WellFormedDiffs.DiffLineStep | lib/git_diff_parser/patches.rb:26-39 | A `diff` line emits the pending patch, if any, and leaves an empty buffer outside a body. |
| WellFormedDiffs.OldLineStep | lib/git_diff_parser/patches.rb:41-45 | `--- a/p` sets the prior name to p; `--- /dev/null` sets it to nil; nothing else changes. |
| WellFormedDiffs.NewLineStep | lib/git_diff_parser/patches.rb:47-55 | `+++` sets the file name and the kind (add, change or delete) as the section's paths say, and opens the body. |
| WellFormedDiffs.PathLinesRun | lib/git_diff_parser/patches.rb:41-55 | A section's `---`/`+++` pair sets both names and the kind, and opens the body. |
| WellFormedDiffs.HeadRun | lib/git_diff_parser/patches.rb:26-55 | A well-formed section's header lines emit what was pending. They then open the body with an empty buffer and the section's names and kind. |
| WellFormedDiffs.SectionRun | lib/git_diff_parser/patches.rb:24-72 | After one section, what was pending before it is emitted. The section's own patch is pending, or emitted when the section ends the input. |
| WellFormedDiffs.SectionsRun | lib/git_diff_parser/patches.rb:24-72 | A run of well-formed sections to the end of the input emits what was pending and then exactly the expected patches. |
| WellFormedDiffs.ParseRenderedSections | lib/git_diff_parser/patches.rb:13-75 | On well-formed sections, `parse` yields one patch per section with hunk lines, in order, with its hunk lines, file, prior file and kind. |
| WellFormedDiffs.ParseRenderedText | lib/git_diff_parser/patches.rb:13-75 | The same for the '\n'-terminated text of those sections, when no line holds '\n' or ends in '\r'. |
| WellFormedDiffs.OnePatchPerWellFormedSection | lib/git_diff_parser/patches.rb:13-75 | `n` well-formed sections, each with hunk lines, give exactly `n` patches; the `i`-th is the `i`-th section's patch. |

## Left out

- `scrub_string` (encoding repair) is not applied by `parse` and is not modelled. Strings are sequences of characters; byte encodings are not modelled.
- The internals of `Patch` are not part of this model: how it stores its text, and how `secure_hash` is derived. `SecureHashes` and `FindPatchBySecureHash` take the patch's hash as a parameter `hashOf`.
- `Patches` is a `DelegateClass(Array)`. The Array methods it forwards (`<<`, `each`, indexing, ...) are not modelled. Neither is mutating a collection in place, or sharing it between holders. The collection is an immutable sequence value, and `parse` appends to a local sequence.
- `initialize(*args)` forwards to `Array.new`. Only the form that wraps an existing list is modelled. `Array.new(size, obj)` and `Array.new(size) { ... }` are left out.
- The regular-expression engine is not modelled. Each anchored pattern is a prefix test, and the captured path is the rest of the line, which is what those patterns do on a line without '\n'.
- WellFormedDiffs.ParseRenderedSections: covers only sections whose hunk lines are all body lines. A removed line such as "-- a/x" (as text, "--- a/x") is read by the source as a header. The theorem's `WellFormed` precondition excludes it, and the general lemmas in `ScannerProperties` cover it.
- WellFormedDiffs.ParseRenderedText: also requires that no line hold '\n' or end in '\r'. Otherwise writing the lines out and cutting and chomping them again would not give them back. The line-level `ParseRenderedSections` has no such requirement.
