# BinderToolTester: the directory-tree differ

BinderToolTester is a regression tester for two versions of a binder
(archive) extraction tool. For each test case it lets the old tool and the
new tool unpack the same archive into two output directories. It then
compares the two directory trees and reports every difference: a missing
entry, an entry of the wrong kind, a file that is too long, too short or has
different bytes, and an entry only the new output has. A test passes when
there are no differences. The driver runs the cases of one game, leaves out
the cases the configuration skips, and counts.

This project models that core in Dafny, in the source's imperative form:

- `FileTree` is the file-system abstraction. Each output directory is a
  `Tree`: a map from a relative path, held as a sequence of name components,
  to a directory node or a file node. A directory node carries its listing in
  the operating system's enumeration order. `GetDirectories` and `GetFiles`
  read that listing.
- `TreeWalk` holds `IterateDirRecursive`, the explicit-stack walk. It is
  proved equal to `Walk`, an independent recursive depth-first description,
  and `Walk` is proved to be a snapshot. A snapshot lists every entry strictly
  below the root exactly once, with its kind. It never lists the root, and it
  lists every directory before all of its descendants.
- `ByteCompare` holds the byte-comparison loop over two `ByteStream` objects
  (the `FileStream`s, with `ReadByte` returning -1 at end of stream). The loop
  is proved to return `CompareBytes`, which states the verdict through
  prefixes.
- `TreeDiff` holds `RunTest`'s comparison: the `extantPaths` set, the `ok`
  flag, the forward pass over the reference tree and the reverse "Extra" pass
  over the candidate tree. `CheckEntry` checks one entry of the forward pass.
  `RunTest` returns exactly the differences of `Diffs`, in order, and `ok`
  holds exactly when the trees are `Equivalent`.
- `TestSuite` holds `RunTests`: the empty game path, the per-game filter, the
  skip set, the output-directory naming and the counter.

Assumptions carried by the model:

- The output directories exist when the comparison starts. `RunTest`
  requires each of its two `Tree`s to have a root directory (`WellFormed`).
  `RunTests` requires this only of the old and new output directories of
  the cases it selects (`OutputsExist`), and only when the game path is not
  empty. With an empty game path it returns without reading them.
- The trees found in the output directories after the binder tools have run
  are a parameter, `outputs: Path -> Tree`.

## Model

| member | source | states |
|---|---|---|
| `TreeWalk.IterateDirRecursive` | Program.cs:243-258 | The stack walk returns the depth-first walk `Walk(t)`. That walk is a snapshot: every entry strictly below the root exactly once, with its kind, never the root, and every directory before its descendants. |
| `TreeWalk.WalkIsSnapshot` | Program.cs:243-258 | The recursive reference walk covers every non-root path of a well-formed tree. It names no path twice, gives each entry its real kind, and lists directories before their contents. |
| `TreeWalk.PushChildren` | Program.cs:252-253 | Pushing a directory's subdirectories and then its files leaves the old stack below exactly the directory's children, with the last file on top. |
| `TreeWalk.PopStep` | Program.cs:249-255 | One iteration keeps the walk's invariant. Pop the top entry, push a directory's subdirectories and then its files, and report the entry: what is already reported plus what the new stack will report equals what the old stack would have reported. |
| `TreeWalk.SnapshotEntryAt` | Program.cs:243-258 | Every path below the root appears in a snapshot, tagged with the kind the tree gives it. |
| `FileTree.ListEntriesValid` | Program.cs:247-248 | Every entry that `GetDirectories` or `GetFiles` returns has the requested kind, lies one level below the directory and is named in its listing. |
| `FileTree.ListEntriesDistinct` | Program.cs:247-248 | A listing without repeated names gives `GetDirectories` and `GetFiles` results that name no path twice. |
| `FileTree.ListEntriesComplete` | Program.cs:247-248 | Every listed name whose node has the requested kind is returned by `GetDirectories` or `GetFiles`. |
| `FileTree.ChildFacts` | Program.cs:247-248 | `GetDirectories` followed by `GetFiles` yields exactly the entries one level below the directory. Each is listed once, with its real kind. |
| `ByteCompare.ByteStream.constructor` | Program.cs:192-193 | Opening a `FileStream` over a file's bytes gives an open stream at position 0. |
| `ByteCompare.ByteStream.ReadByte` | Program.cs:195-196 | Returns the next byte and advances, or returns -1 once the stream has ended. |
| `ByteCompare.ByteStream.Close` | Program.cs:215-216 | Closing leaves the stream closed and does not move its position. |
| `ByteCompare.CompareStreams` | Program.cs:192-216 | Reading both streams in step until an end or a differing byte decides the verdict of `CompareBytes` for the two files' contents. |
| `ByteCompare.CompareBytesMeaning` | Program.cs:194-214 | "Too long" iff the reference is a strict prefix of the candidate. "Too short" iff the candidate is a strict prefix of the reference. "Different contents" iff the files share a prefix and then differ at some byte. No difference iff the bytes are identical. |
| `TreeDiff.ForwardDiff` | Program.cs:180-218 | The reference definition of one forward-pass check, which `CheckEntry` is proved to compute. Any difference it reports is about the entry's own path. |
| `TreeDiff.CheckEntry` | Program.cs:180-218 | A directory must be a directory in the candidate: otherwise "was a file instead" or "did not exist". A file must be a file there: otherwise "was a directory instead" or "did not exist". Matching files give at most the byte comparison's one difference. |
| `TreeDiff.ForwardDiffNone` | Program.cs:180-218 | An entry of the reference tree produces no difference exactly when the candidate has the same kind of entry at that path and, for a file, the same bytes. |
| `TreeDiff.Diffs` | Program.cs:166-225 | The reference definition of everything `RunTest` reports: the forward pass over tree A's walk, then the Extras of tree B's walk. It holds at most one difference per walked entry of either tree. |
| `TreeDiff.RunTest` | Program.cs:166-229 | The differences are the forward-pass differences in the reference walk's order, then the Extra differences in the candidate walk's order. `ok` is true iff there are none, iff the two trees are equivalent. |
| `TreeDiff.PassIffEquivalent` | Program.cs:166-229 | The difference sequence is empty exactly when both trees have the same paths, the same kinds and the same file bytes. |
| `TreeDiff.DiffsOfSelf` | Program.cs:166-229 | Reflexivity: a tree compared with itself yields no difference, so the test passes. |
| `TreeDiff.DifferencesAt` | Program.cs:175-225 | Per path, the reported differences are the forward verdict when the reference has the path, one Extra with the candidate's kind when only the candidate has it, and none otherwise. So no path is reported twice and the root is never reported. |
| `TreeDiff.KindMismatchReportedOnce` | Program.cs:179-225 | A path present in both trees with different kinds is reported exactly once, as a kind mismatch and never as Extra, because `extantPaths` records paths regardless of kind. |
| `TreeDiff.MissingVersusExtra` | Program.cs:180-225 | A path only in tree A is "did not exist" when A is the reference and "Extra" with A's kind when A is the candidate. |
| `TreeDiff.ForwardDiffsEmpty` | Program.cs:175-219 | The forward pass reports nothing exactly when no entry of the walk yields a difference. |
| `TreeDiff.ExtraDiffsEmpty` | Program.cs:220-225 | The reverse pass reports nothing exactly when every path of the candidate's walk was seen by the forward pass. |
| `TestSuite.RemoveBdt` | Program.cs:101-102 | `Replace(".bdt", "")`: a left-to-right scan that drops non-overlapping occurrences. The result is never longer than the name, and it is shorter by a multiple of four characters. |
| `TestSuite.OutputDirectory` | Program.cs:101-102 | `Path.Join(outputPath, game, stripped name + suffix)`: a path two levels below the output path. |
| `TestSuite.OldDirectory` | Program.cs:101 | The old tool's output directory, with suffix "Old", two levels below the output path. |
| `TestSuite.NewDirectory` | Program.cs:102 | The new tool's output directory, with suffix "New", two levels below the output path. |
| `TestSuite.RemoveBdtIdentity` | Program.cs:101-102 | `Replace(".bdt", "")` leaves a name with no ".bdt" in it unchanged. |
| `TestSuite.RemoveBdtTrailing` | Program.cs:101-102 | A trailing ".bdt" is dropped whole, and never combines with the end of the name into another occurrence. |
| `TestSuite.StripsExtension` | Program.cs:101-102 | The output name of "stem.bdt" is the stem when the stem has no ".bdt" in it. |
| `TestSuite.OldNewDistinct` | Program.cs:101-102 | The old tool's output directory (suffix "Old") and the new tool's (suffix "New") are never the same path. |
| `TestSuite.OutputDirectoryInjective` | Program.cs:101-102 | Two cases share an output directory only if they have the same game and the same name once ".bdt" is removed. |
| `TestSuite.Selected` | Program.cs:92-96 | The cases of the game without the skipped ones, in catalog order. The selection is never longer than the catalog. `SelectedMembers` states which cases it holds. |
| `TestSuite.SelectedMembers` | Program.cs:92-96 | A case runs exactly when its game matches and its file is not in the skip set. |
| `TestSuite.SelectedAppend` | Program.cs:92-96 | Selection keeps catalog order: selecting from a concatenation concatenates the selections. |
| `TestSuite.RunCase` | Program.cs:98-106 | The call to `RunTest` on a case's old and new output directories returns true exactly when the two trees are equivalent (`Passes`). |
| `TestSuite.RunTestsNext` | Program.cs:92-107 | One pass of the `foreach`: after the next catalog case, the cases run are the selection of the catalog so far, and the counter is the number of them that passed. |
| `TestSuite.RunTestsCountingFailuresNext` | Program.cs:92-107 | One pass of the loop with `if (!success)`: the same selection so far, with the counter equal to the number of those cases that failed. |
| `TestSuite.RunTests` | Program.cs:84-111 | With an empty game path nothing runs and the result is 0. Otherwise exactly the selected cases run, in catalog order, and the counter is the number of them that passed (as written). |
| `TestSuite.RunTestsCountingFailures` | Program.cs:84-111 | The same selection, with the counter equal to the number of selected cases that failed. |
| `TestSuite.PassingPlusFailing` | Program.cs:107 | Every case that runs is counted either as passing or as failing. |
| `TestSuite.NoFailuresIffAllPass` | Program.cs:107 | The failure count is zero exactly when every case that ran passed. |
| `TestSuite.CounterCountsPasses` | Program.cs:107 | For one Dark Souls case whose two outputs are both empty, the case passes: one pass is counted and zero failures. |

## Left out

- Running the binder tools (Program.cs:132-165) is left out because it is process plumbing. This covers `Process.Start`, `WaitForExit`, the "skip" sentinel and the warning about a non-empty output directory. The trees found afterwards are the `outputs` parameter, so skipping a tool has no effect on the comparison.
- TOML configuration loading and `Main`'s argument dispatch (Program.cs:59-81) are left out: they are a foreign library call and console output.
- The Konsole progress and difference windows, with their floating-point percentage (Program.cs:169-177, 232-236), are left out as user interface. A difference is appended to a sequence of `Difference` values instead of being written as text.
- `MakeOnDiff`'s lazily created log file (Program.cs:113-125) is left out: it is file I/O and reads the clock.
- Real file-system calls, `Path.Combine`, `Path.Join` and `Path.GetRelativePath` are left out. Each tree is a map keyed by relative paths, so the relative path of an entry is its key.
- `OutputDirectory` keeps a catalog file name that contains a backslash (`Artwork_MiniSoundtrack\Data.bdt`) as one path component. The operating system would read it as two directory levels.
- A missing root directory makes the source throw from `Directory.GetDirectories`. Reporting that case as differences would be more useful, but the model follows the code and requires both roots to exist (`WellFormed`).
- The model assumes that path lookup is exact and case-sensitive, that every entry is readable, and that there are no symbolic links or junctions. On a case-insensitive file system, `Directory.Exists` and `File.Exists` (Program.cs:181-189) ignore case but `extantPaths` (Program.cs:167, 221) does not. There, A's `Foo.txt` against B's `foo.txt`, with the same bytes, gives only "Extra File foo.txt", while the model gives a missing file and an Extra. The two agree on whether the test passes. An unreadable or locked file makes `new FileStream` (Program.cs:192-193) throw, which ends the whole run. A link back to an ancestor makes the walk (Program.cs:249-256) follow the link level by level until the operating system refuses the path. `Directory.GetDirectories` then throws, which ends the run. A `Tree` cannot express any of these.
- The OS enumeration order of a directory is modelled as the listing stored in the directory node. The model does not capture a file system that returns a different order on each call.
- `RunTests` takes the catalog as a parameter; the static `TestCases` list (Program.cs:30-55) is given as data.
- The outward-facing messages of `RunTests` and `RunTest` ("Skipping test for …", "Test passed.") are console output and are left out.
- `CheckEntry` does not state that both streams are closed afterwards. The streams are local to the call and it closes both on every path.

## Findings

| source | as written | input that shows it | evidently intended | confidence | as-written member | corrected member |
|---|---|---|---|---|---|---|
| Program.cs:107 | `if (success) failed++;` increments the counter, which `RunTests` returns and `Main` prints under "Tests failed", when a test passes | one Dark Souls case, "dvdbnd0.bdt", not skipped, whose old and new outputs are both an empty directory: the case passes and `RunTests` returns 1 | `if (!success) failed++;`: count failing cases | not executed | `TestSuite.RunTests` with `TestSuite.CounterCountsPasses` | `TestSuite.RunTestsCountingFailures` with `TestSuite.NoFailuresIffAllPass` |
