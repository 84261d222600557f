# Verified model of three text and tree utilities

This project is a Dafny model of three small Python command-line utilities, with proofs of what they
do. The filesystem is replaced by plain data:

- a file is the list of lines that reading it yields. `dedup_file` opens its input with `newline=""`,
  so each line keeps its original ending. `clean_code` opens files in Python's default text mode,
  which turns `\r\n` and a lone `\r` into `\n` before the lines reach it;
- a file that cannot be read or decoded is `None`;
- a directory is a `FileTree.Node` whose children are in listing order.

The three utilities are:

- **project-sum.py** (module `ProjectSum`).
  - `clean_code` removes the C# `using` lines of a file and everything before its first `namespace` line.
  - `summarize_project_code` walks a project tree top-down, like `os.walk`. It prunes auto-generated
    directories at every depth and picks, for each file, the first requested extension its name ends
    with. It then concatenates one fragment per file: a header with the file's path relative to the
    root, followed by the cleaned text.
- **clean-multiple-lines.py** (module `Dedup`).
  - `canonicalize` reduces a line to a comparison key.
  - `dedup_file` writes the first line with each key, verbatim and in order, and counts kept and
    dropped lines.
- **generate_tree.py** (module `GenerateTree`).
  - `should_exclude` filters directories by name and files by a name suffix.
  - `recurse` renders a directory as sorted, prefixed lines joined by newlines.

Shared pieces:

- `Text` holds the Python string operations the scripts use: `lstrip`/`rstrip`/`strip` over a
  character set, `startswith`/`endswith`, lower-casing, `"".join` and `sep.join`.
- `Seqs` holds a list filter and a first-index search.
- `FileTree` holds the tree datatype.

Where the code keeps state in loops (the extension and file loops of `summarize_project_code`, the
`seen` loop of `dedup_file`, the `entries` loop of `recurse`), the model is a method with loop
invariants. Each such method is proved equal to a specification function. The promised properties
are then proved about that function.

Details of what the scripts do, as modelled:

- `clean_code` reads a file as UTF-8. When opening or decoding fails it returns nothing, and the file is
  skipped.
- A fragment is `"=============\n"`, the relative path, `"\n-------------\n"`, the cleaned text and
  one `"\n"`. The cleaned text is the kept lines concatenated exactly as read, so it ends with a newline
  only when the file's last kept line does.
- For C# files, `clean_code` removes every line, empty or not, before the first line that starts with `namespace`.
- The walk follows directory listing order; files are not sorted.
- The excluded directory names and suffixes are fixed in the code.

## Model

| member | source | states |
|---|---|---|
| Text.LStripSpec | project-sum.py:55 | `lstrip(cs)` keeps the longest suffix that does not start with a character of `cs`; only characters of `cs` are dropped |
| Text.RStripSpec | clean-multiple-lines.py:16 | `rstrip(cs)` keeps the longest prefix that does not end with a character of `cs`; only characters of `cs` are dropped |
| Text.StripIdempotent | clean-multiple-lines.py:18 | `strip` leaves no character of the set at either end, and stripping again changes nothing |
| Text.StripSpec | clean-multiple-lines.py:18 | `strip(cs)` returns the slice of the string left after cutting characters of `cs` from both ends: everything cut is in `cs`, and the slice neither starts nor ends with a character of `cs` |
| Text.CutUnique | clean-multiple-lines.py:16-18 | such a cut is unique: two cuts of the same string by the same sets leave the same text, so the slice descriptions of `strip` and of the dedup key determine their results |
| Text.LowerIsLower | clean-multiple-lines.py:20 | lower-cased text has no upper-case letter, and lower-casing is idempotent |
| Text.JoinEnds | generate_tree.py:49 | `sep.join` of no parts is `""`; otherwise it ends with the last part, with no separator after it |
| Seqs.FilterSpec | project-sum.py:55 | a list comprehension's result is no longer than its input, and holds only input elements that pass the test |
| Seqs.FilterKeeps | project-sum.py:91-93 | every input element that passes the test is kept |
| Seqs.FirstIndexSpec | project-sum.py:57-61 | the search loop that breaks at the first hit finds the first index whose element passes the test, or none when no element does |
| ProjectSum.CsKeptSpec | project-sum.py:53-64 | for C#: no `using` line (after stripping BOMs, then whitespace) survives; the result is a suffix of the non-`using` lines; when one of them starts with `namespace`, the result begins at the first such line; otherwise it is all of them |
| ProjectSum.DropUsingsAppend | project-sum.py:55 | import filtering works line by line: it distributes over concatenation, and one line is dropped exactly when it is a `using` line |
| ProjectSum.CleanedSpec | project-sum.py:46-68 | `clean_code` yields `None` exactly when the read fails; for an extension other than `.cs` (any case), it yields the unchanged concatenation of the lines |
| ProjectSum.CleanCode | project-sum.py:33-68 | the method with the `namespace` search loop and its `break` computes the cleaned text that `Cleaned` specifies |
| ProjectSum.PruneSpec | project-sum.py:85-93 | the walk enters only sub-directories of the current directory whose lower-cased name is not bin/obj/resources/assets and does not end with .droid/.winui |
| ProjectSum.WalkSound | project-sum.py:89-95 | every file the walk reports lies in the tree under the path recorded for it, below no excluded directory |
| ProjectSum.WalkComplete | project-sum.py:89-95 | every file of the tree below no excluded directory is reported, with its path |
| ProjectSum.WalkVisitsExactly | project-sum.py:85-95 | a file is reported exactly when it lies in the tree below no excluded directory; nothing under an excluded directory appears at any depth |
| ProjectSum.FirstMatchSpec | project-sum.py:97-98 | the extension used is the first one in the caller's list that the lower-cased file name ends with (lower-cased) |
| ProjectSum.FragmentForSpec | project-sum.py:97-113 | a file yields a fragment exactly when it is readable and some extension matches; the fragment is `"=============\n"` + the '/'-joined relative path + `"\n-------------\n"` + the text cleaned for the first matching extension + `"\n"` |
| ProjectSum.FragmentsAtMostOnePerFile | project-sum.py:95-113 | each reported file contributes at most one fragment |
| ProjectSum.FragmentsAppend | project-sum.py:95-113 | fragments are produced file by file in traversal order: the output for two runs of files is the concatenation of their outputs |
| ProjectSum.UnreadableSkipped | project-sum.py:103-107 | an unreadable file contributes nothing, and processing continues with the next file as if it were absent |
| ProjectSum.SummarizeFile | project-sum.py:97-113 | the extension loop, with its `continue` after a failed read and its `break` after a fragment, yields exactly the file's specified fragment |
| ProjectSum.SummarizeFiles | project-sum.py:95-113 | the loop over a directory's files appends the fragments of its files in listing order |
| ProjectSum.SummarizeSubDirs | project-sum.py:89-93 | the pruned sub-directories are walked one after the other, each contributing the fragments of its whole sub-tree |
| ProjectSum.SummarizeDir | project-sum.py:88-113 | a directory's files come first, then its pruned sub-directories, giving the fragments of the walk in `os.walk` top-down order |
| ProjectSum.SummarizeProjectCode | project-sum.py:70-114 | the output is the concatenation of the fragments of the files the walk reports, in traversal order; a base that is not a directory gives `""` |
| Dedup.CanonicalizeSpec | clean-multiple-lines.py:7-21 | the key is the slice of the line left after cutting the trailing `\r`/`\n` characters, and also surrounding whitespace at both ends only when `strip_ws` is set, lower-cased only when `ignore_case` is set; by `Text.CutUnique` that slice is unique, so this fixes the key |
| Dedup.CanonicalizeShape | clean-multiple-lines.py:16-21 | the key never ends in `\r` or `\n`; with `strip_ws` it has no surrounding whitespace; with `ignore_case` it has no upper-case letter; with neither option it is the line minus a tail made only of `\r`/`\n` |
| Dedup.CanonicalizeIdempotent | clean-multiple-lines.py:7-21 | a key is its own key |
| Dedup.KeysOfSpec | clean-multiple-lines.py:44-48 | `seen` holds exactly the keys of the lines read so far |
| Dedup.KeptIsSubsequence | clean-multiple-lines.py:43-49 | the written lines are input lines taken verbatim, with their line endings, at strictly increasing positions |
| Dedup.KeptExactlyFirsts | clean-multiple-lines.py:43-47 | a line is written exactly when no earlier line has the same key, so it is dropped exactly when one does |
| Dedup.KeptKeysDistinct | clean-multiple-lines.py:45-48 | no two written lines share a key |
| Dedup.KeptCoversKeys | clean-multiple-lines.py:44-49 | the keys of the written lines are exactly the keys of the input, which is what `seen` ends up holding |
| Dedup.KeptCountsKeys | clean-multiple-lines.py:45-50 | the number of lines written equals the number of distinct keys |
| Dedup.DedupFile | clean-multiple-lines.py:36-52 | the loop with `seen`, `kept` and `dropped` writes exactly the specified lines, `kept` is their number and the number of distinct keys, and `kept + dropped` is the number of input lines |
| GenerateTree.ShouldExcludeSpec | generate_tree.py:20-28 | a directory is excluded exactly when its name is listed (case-sensitive); a file exactly when its name ends with some pattern stripped of its surrounding `*` |
| GenerateTree.MatchesAnyPatternSpec | generate_tree.py:24-28 | the loop that returns at the first matching pattern returns true exactly when some pattern matches |
| GenerateTree.StarsHideEveryFile | generate_tree.py:24-28 | a pattern made only of `*` matches every file name |
| GenerateTree.DefaultExcludedDirs | generate_tree.py:15-16 | with the default directory list, `bin` and `.git` are excluded but `Bin` and `src` are not |
| GenerateTree.DefaultPatternSuffix | generate_tree.py:17-18 | the default file patterns stand for the endings .dll, .pdb, .log, .exe, .dockerignore, .editorconfig, .gitignore and project_tree.txt |
| GenerateTree.DefaultExcludedFiles | generate_tree.py:17-18 | with the default file list, a file is excluded exactly when its name ends with one of those endings |
| GenerateTree.NameLeTotal | generate_tree.py:33 | Python's string order relates any two names |
| GenerateTree.NameLeTransitive | generate_tree.py:33 | Python's string order is transitive |
| GenerateTree.SortByNameSpec | generate_tree.py:33 | `sorted` returns the same entries (as a multiset) in name order |
| GenerateTree.SortByNameMembers | generate_tree.py:33 | an entry is in the sorted listing exactly when it is in the directory |
| GenerateTree.LinesNonEmpty | generate_tree.py:39-48 | no rendered line is empty |
| GenerateTree.AppendEntry | generate_tree.py:39-43 | appending a directory's line and then its sub-tree text only when that text is non-empty joins like appending the line and the sub-tree's own lines |
| GenerateTree.Recurse | generate_tree.py:30-49 | the loop over the sorted children, skipping excluded ones and appending each sub-tree only when it is non-empty, returns the `"\n"`-join of the specified lines |
| GenerateTree.GenerateFilteredTree | generate_tree.py:3-51 | a missing exclusion list is replaced by its default; a directory renders as its joined lines; a path that is not a directory cannot be listed, which the model reports as `None` |
| GenerateTree.RenderNest | generate_tree.py:41 | one level of recursion adds exactly one `"│   "` to the prefix of every line of the sub-tree |
| GenerateTree.LinesRenderEntries | generate_tree.py:30-48 | the line of an entry `d` directories deep is the prefix, then `d` copies of `"│   "`, then `"├── "`, then the name, with `/` after a directory name |
| GenerateTree.EntriesSound | generate_tree.py:33-46 | every rendered entry is an item that is not excluded, and every directory on its way is not excluded either |
| GenerateTree.EntriesComplete | generate_tree.py:33-48 | every item that is not excluded and lies below no excluded directory is rendered |
| GenerateTree.RenderedExactly | generate_tree.py:33-48 | an entry is rendered exactly when it and all directories above it survive the exclusions |
| GenerateTree.ChunkShape | generate_tree.py:35-48 | an item contributes its own line first, and every other line it contributes lies inside that item: its entry path starts with the item's name |
| GenerateTree.TopLevelSorted | generate_tree.py:33 | the entries directly in a rendered directory appear in sorted name order |
| GenerateTree.LinesEmpty | generate_tree.py:32-49 | a directory renders no line exactly when every one of its entries is excluded |
| GenerateTree.EmptySubdirectoryLine | generate_tree.py:39-43 | a surviving sub-directory whose entries are all excluded still gets its own line and adds no other line |
| GenerateTree.TreeText | generate_tree.py:49 | the rendered text is `""` exactly when every entry is excluded; otherwise it ends with the last line and has no newline after it |

## Left out

- Filesystem access is replaced by the `Node` tree, with the outcome of each read given in advance. This covers `open`, `readlines`, `os.walk`, `os.listdir` and `os.path.isdir`. A file therefore reads the same way on every attempt: when one extension's read fails, the later matching extensions that `project-sum.py` retries fail too.
- `os.path.join`, `os.path.relpath` and the separator replacement are modelled as joining the directory names and the file name with `/`. Symbolic links, permission errors inside the walk, and `os.walk` error handling are not modelled.
- Splitting a file into lines (`readlines()`, iteration over the input with `newline=""`) is not modelled. The lines are the input.
- Newline translation in `clean_code`'s default text mode is not modelled: the model takes the already-translated lines as given. `Node.File` content therefore admits lines ending in `\r` or `\r\n`, which `project-sum.py` never produces.
- Text encodings and `errors="replace"` are not modelled.
- Output files, the clipboard (`pyperclip`), `argparse`, `main`, logging, `print`, `sys.exit`, `input()` and the write of `project_tree.txt` are not modelled. `dedup_file` returns the lines it would write instead of writing them.
- Text.Lower: maps only `A`-`Z` to `a`-`z`. Python's `str.lower()` also lower-cases non-ASCII letters. `IsCSharp`, `MatchesExtension`, `IsExcludedDir` and `Canonicalize` inherit this restriction.
- Python's recursion limit on deep trees is not modelled.
- Directory listings are assumed to have unique names, as a real directory does. With duplicate names, the model's ordering of the equal names is unspecified.

