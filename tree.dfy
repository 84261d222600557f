/** The filtered tree renderer of `generate_tree.py`: a directory is listed in sorted name order, one
    line per entry that survives the exclusions, sub-directories indented below their own line, and
    the lines joined by newlines. */
module GenerateTree {
  import opened Wrappers
  import opened Text
  import opened FileTree

  const DefaultExcludeDirs: seq<string> :=
    ["bin", "obj", "Properties", ".vs", ".idea", ".vscode", ".git", "Platforms", "Resources"]
  const DefaultExcludeFiles: seq<string> :=
    ["*.dll", "*.pdb", "*.log", "*.exe", ".dockerignore", ".editorconfig", ".gitignore", "project_tree.txt"]

  /** The lists `should_exclude` consults: directory names, and file name patterns. */
  datatype Exclusions = Exclusions(dirs: seq<string>, files: seq<string>)

  const Branch: string := "├── "
  const Indent: string := "│   "

  // ---------------------------------------------------------------------------------------------
  // should_exclude

  /** What a file name must end with to match `pattern`: the pattern without its leading and trailing '*'. */
  function PatternSuffix(pattern: string): string
  {
    Strip(pattern, {'*'})
  }

  /** The `for pattern in exclude_files` loop, returning at the first pattern that matches. */
  function MatchesAnyPattern(item: string, patterns: seq<string>): bool
  {
    patterns != [] && (EndsWith(item, PatternSuffix(patterns[0])) || MatchesAnyPattern(item, patterns[1..]))
  }

  /** `should_exclude(item, is_dir)`. */
  function ShouldExclude(item: string, isDir: bool, ex: Exclusions): bool
  {
    if isDir then item in ex.dirs else MatchesAnyPattern(item, ex.files)
  }

  /** A directory is excluded exactly when its name is listed, compared case-sensitively; a file exactly
      when its name ends with some pattern once the '*' around the pattern are removed. */
  lemma {:induction false} ShouldExcludeSpec(item: string, isDir: bool, ex: Exclusions)
    ensures isDir ==> (ShouldExclude(item, isDir, ex) <==> exists i :: 0 <= i < |ex.dirs| && ex.dirs[i] == item)
    ensures !isDir ==> (ShouldExclude(item, isDir, ex) <==>
      exists i :: 0 <= i < |ex.files| && EndsWith(item, PatternSuffix(ex.files[i])))
  {
    if !isDir {
      MatchesAnyPatternSpec(item, ex.files);
    }
  }

  lemma {:induction false} MatchesAnyPatternSpec(item: string, patterns: seq<string>)
    ensures MatchesAnyPattern(item, patterns) <==>
      exists i :: 0 <= i < |patterns| && EndsWith(item, PatternSuffix(patterns[i]))
  {
    if patterns != [] {
      MatchesAnyPatternSpec(item, patterns[1..]);
      if exists i :: 0 <= i < |patterns| && EndsWith(item, PatternSuffix(patterns[i])) {
        var i :| 0 <= i < |patterns| && EndsWith(item, PatternSuffix(patterns[i]));
        if i > 0 {
          assert patterns[1..][i - 1] == patterns[i];
        }
      }
      if MatchesAnyPattern(item, patterns[1..]) {
        var i :| 0 <= i < |patterns[1..]| && EndsWith(item, PatternSuffix(patterns[1..][i]));
        assert patterns[i + 1] == patterns[1..][i];
      }
    }
  }

  /** A pattern made only of '*' strips to "", which every name ends with: it hides every file. */
  lemma StarsHideEveryFile(item: string, ex: Exclusions, i: nat)
    requires i < |ex.files| && forall k :: 0 <= k < |ex.files[i]| ==> ex.files[i][k] == '*'
    ensures ShouldExclude(item, false, ex)
  {
    LStripSpec(ex.files[i], {'*'});
    ShouldExcludeSpec(item, false, ex);
    assert EndsWith(item, PatternSuffix(ex.files[i]));
  }

  /** With the default lists, build output directories are hidden, compared case-sensitively. */
  lemma DefaultExcludedDirs()
    ensures var ex := Exclusions(DefaultExcludeDirs, DefaultExcludeFiles);
      ShouldExclude("bin", true, ex) && ShouldExclude(".git", true, ex) &&
      !ShouldExclude("Bin", true, ex) && !ShouldExclude("src", true, ex)
  {
    var ex := Exclusions(DefaultExcludeDirs, DefaultExcludeFiles);
    assert ex.dirs[0] == "bin" && ex.dirs[6] == ".git";
  }

  /** The name endings the default file patterns stand for once their '*' are removed. */
  const DefaultExcludedSuffixes: seq<string> :=
    [".dll", ".pdb", ".log", ".exe", ".dockerignore", ".editorconfig", ".gitignore", "project_tree.txt"]

  /** With the default lists, a file is hidden exactly when its name ends with one of the default
      endings: compiled binaries, debug symbols, logs, tool settings and the tree file itself. */
  lemma DefaultExcludedFiles(item: string)
    ensures ShouldExclude(item, false, Exclusions(DefaultExcludeDirs, DefaultExcludeFiles)) <==>
      exists i :: 0 <= i < |DefaultExcludedSuffixes| && EndsWith(item, DefaultExcludedSuffixes[i])
  {
    ShouldExcludeSpec(item, false, Exclusions(DefaultExcludeDirs, DefaultExcludeFiles));
    forall i | 0 <= i < |DefaultExcludeFiles|
      ensures PatternSuffix(DefaultExcludeFiles[i]) == DefaultExcludedSuffixes[i]
    {
      DefaultPatternSuffix(i);
    }
  }

  /** The suffix each default file pattern stands for. */
  lemma DefaultPatternSuffix(i: nat)
    requires i < |DefaultExcludeFiles|
    ensures PatternSuffix(DefaultExcludeFiles[i]) == DefaultExcludedSuffixes[i]
  {
    var p := DefaultExcludeFiles[i];
    if i < 4 {
      assert p == ['*'] + p[1..];
      assert p[1..] != [] && p[1] != '*' && p[|p| - 1] != '*';
      assert LStrip(p[1..], {'*'}) == p[1..];
    } else {
      assert p != [] && p[0] != '*' && p[|p| - 1] != '*';
      assert LStrip(p, {'*'}) == p;
    }
  }

  // ---------------------------------------------------------------------------------------------
  // sorted(os.listdir(directory))

  /** Python's string order: code point by code point, a proper prefix first. */
  predicate NameLe(a: string, b: string)
  {
    a == [] || (b != [] && (a[0] < b[0] || (a[0] == b[0] && NameLe(a[1..], b[1..]))))
  }

  lemma {:induction false} NameLeTotal(a: string, b: string)
    ensures NameLe(a, b) || NameLe(b, a)
  {
    if a != [] && b != [] && a[0] == b[0] {
      NameLeTotal(a[1..], b[1..]);
    }
  }

  lemma {:induction false} NameLeTransitive(a: string, b: string, c: string)
    requires NameLe(a, b) && NameLe(b, c)
    ensures NameLe(a, c)
  {
    if a != [] && b != [] && c != [] && a[0] == b[0] == c[0] {
      NameLeTransitive(a[1..], b[1..], c[1..]);
    }
  }

  predicate SortedByName(s: seq<Node>)
  {
    forall i, j :: 0 <= i < j < |s| ==> NameLe(s[i].name, s[j].name)
  }

  function InsertByName(x: Node, s: seq<Node>): seq<Node>
  {
    if s == [] then [x]
    else if NameLe(x.name, s[0].name) then [x] + s
    else [s[0]] + InsertByName(x, s[1..])
  }

  /** Inserting adds exactly the one element. */
  lemma {:induction false} InsertByNamePermutes(x: Node, s: seq<Node>)
    ensures multiset(InsertByName(x, s)) == multiset(s) + multiset{x}
  {
    if s != [] && !NameLe(x.name, s[0].name) {
      InsertByNamePermutes(x, s[1..]);
      assert s == [s[0]] + s[1..];
    }
  }

  /** Inserting into a sorted list keeps it sorted. */
  lemma {:induction false} InsertByNameSorted(x: Node, s: seq<Node>)
    requires SortedByName(s)
    ensures SortedByName(InsertByName(x, s))
  {
    if s == [] {
    } else if NameLe(x.name, s[0].name) {
      ConsSorted(x, s);
    } else {
      var rest := InsertByName(x, s[1..]);
      InsertByNameSorted(x, s[1..]);
      InsertByNamePermutes(x, s[1..]);
      NameLeTotal(x.name, s[0].name);
      forall j | 0 <= j < |rest|
        ensures NameLe(s[0].name, rest[j].name)
      {
        assert rest[j] in multiset(rest);
        if rest[j] != x {
          assert rest[j] in multiset(s[1..]);
          var k :| 0 <= k < |s[1..]| && s[1..][k] == rest[j];
          assert s[k + 1] == rest[j];
        }
      }
      ConsSortedBelow(s[0], rest);
    }
  }

  /** A name no greater than the head of a sorted list can go in front of it. */
  lemma ConsSorted(x: Node, s: seq<Node>)
    requires SortedByName(s) && s != [] && NameLe(x.name, s[0].name)
    ensures SortedByName([x] + s)
  {
    var r := [x] + s;
    forall i, j | 0 <= i < j < |r|
      ensures NameLe(r[i].name, r[j].name)
    {
      if i == 0 && j > 1 {
        NameLeTransitive(x.name, s[0].name, s[j - 1].name);
      }
    }
  }

  /** A name no greater than every element of a sorted list can go in front of it. */
  lemma ConsSortedBelow(x: Node, s: seq<Node>)
    requires SortedByName(s) && forall j :: 0 <= j < |s| ==> NameLe(x.name, s[j].name)
    ensures SortedByName([x] + s)
  {
    var r := [x] + s;
    forall i, j | 0 <= i < j < |r|
      ensures NameLe(r[i].name, r[j].name)
    {
      if i > 0 {
        assert r[i] == s[i - 1];
      }
      assert r[j] == s[j - 1];
    }
  }

  /** `sorted(...)` over the names of a directory's entries. */
  function SortByName(s: seq<Node>): seq<Node>
  {
    if s == [] then [] else InsertByName(s[0], SortByName(s[1..]))
  }

  /** Sorting returns the same entries, in name order. */
  lemma {:induction false} SortByNameSpec(s: seq<Node>)
    ensures SortedByName(SortByName(s)) && multiset(SortByName(s)) == multiset(s)
  {
    if s != [] {
      SortByNameSpec(s[1..]);
      InsertByNameSorted(s[0], SortByName(s[1..]));
      InsertByNamePermutes(s[0], SortByName(s[1..]));
      assert s == [s[0]] + s[1..];
    }
  }

  /** An entry is in the sorted listing exactly when it is in the directory. */
  lemma SortByNameMembers(s: seq<Node>)
    ensures forall n :: n in SortByName(s) <==> n in s
  {
    SortByNameSpec(s);
    forall n
      ensures n in SortByName(s) <==> n in s
    {
      assert n in SortByName(s) <==> n in multiset(SortByName(s));
      assert n in s <==> n in multiset(s);
    }
  }

  // ---------------------------------------------------------------------------------------------
  // recurse

  /** The line `recurse` emits for an entry that is not excluded. */
  function EntryLine(prefix: string, name: string, isDir: bool): string
  {
    prefix + Branch + name + (if isDir then "/" else "")
  }

  /** The lines `recurse(directory, prefix)` joins: one per surviving entry, in sorted order, each
      sub-directory's own lines following its line. */
  function Lines(dir: Node, prefix: string, ex: Exclusions): seq<string>
    requires dir.Dir?
    decreases dir
  {
    SortByNameMembers(dir.children);
    ItemLines(SortByName(dir.children), prefix, ex, dir)
  }

  /** The lines produced by the items `items` of `parent`'s sorted listing. */
  function ItemLines(items: seq<Node>, prefix: string, ex: Exclusions, parent: Node): seq<string>
    requires parent.Dir? && forall i :: 0 <= i < |items| ==> items[i] in parent.children
    decreases parent, |items|
  {
    if items == [] then []
    else ItemLines(items[..|items| - 1], prefix, ex, parent) + ItemChunk(items[|items| - 1], prefix, ex, parent)
  }

  /** The lines one item of `parent` contributes. */
  function ItemChunk(item: Node, prefix: string, ex: Exclusions, parent: Node): seq<string>
    requires parent.Dir? && item in parent.children
    decreases parent, 0
  {
    if ShouldExclude(item.name, item.Dir?, ex) then []
    else if item.Dir? then [EntryLine(prefix, item.name, true)] + Lines(item, prefix + Indent, ex)
    else [EntryLine(prefix, item.name, false)]
  }

  /** No rendered line is empty. */
  lemma {:induction false} LinesNonEmpty(dir: Node, prefix: string, ex: Exclusions)
    requires dir.Dir?
    ensures forall i :: 0 <= i < |Lines(dir, prefix, ex)| ==> Lines(dir, prefix, ex)[i] != ""
    decreases dir
  {
    SortByNameMembers(dir.children);
    ItemLinesNonEmpty(SortByName(dir.children), prefix, ex, dir);
  }

  lemma {:induction false} ItemLinesNonEmpty(items: seq<Node>, prefix: string, ex: Exclusions, parent: Node)
    requires parent.Dir? && forall i :: 0 <= i < |items| ==> items[i] in parent.children
    ensures forall i :: 0 <= i < |ItemLines(items, prefix, ex, parent)| ==> ItemLines(items, prefix, ex, parent)[i] != ""
    decreases parent, |items|
  {
    if items != [] {
      var item := items[|items| - 1];
      ItemLinesNonEmpty(items[..|items| - 1], prefix, ex, parent);
      var chunk := ItemChunk(item, prefix, ex, parent);
      if !ShouldExclude(item.name, item.Dir?, ex) && item.Dir? {
        LinesNonEmpty(item, prefix + Indent, ex);
      }
      forall i | 0 <= i < |chunk|
        ensures chunk[i] != ""
      {
        if i == 0 {
          assert |chunk[0]| >= |Branch|;
        } else {
          assert chunk[i] == Lines(item, prefix + Indent, ex)[i - 1];
        }
      }
    }
  }

  /** One step of `recurse`'s loop: appending an entry's line, and its sub-tree text when that is not
      empty, joins like appending the line and the sub-tree's own lines. */
  lemma AppendEntry(entries: seq<string>, lines: seq<string>, line: string, subtree: string, subLines: seq<string>)
    requires Join(entries, "\n") == Join(lines, "\n") && (entries == [] <==> lines == [])
    requires subtree == Join(subLines, "\n") && forall i :: 0 <= i < |subLines| ==> subLines[i] != ""
    ensures subtree != "" ==> Join(entries + [line] + [subtree], "\n") == Join(lines + [line] + subLines, "\n")
    ensures subtree == "" ==> Join(entries + [line], "\n") == Join(lines + [line] + subLines, "\n")
  {
    JoinExtend(entries, lines, [line], line, "\n");
    JoinEmpty(subLines, "\n");
    if subtree != "" {
      JoinExtend(entries + [line], lines + [line], subLines, subtree, "\n");
    } else {
      assert lines + [line] + subLines == lines + [line];
    }
  }

  /** `recurse(directory, prefix)`: the entries of the directory in sorted order, excluded ones
      skipped; a directory's line is followed by its sub-tree only when that sub-tree is not empty. */
  method Recurse(dir: Node, prefix: string, ex: Exclusions) returns (tree: string)
    requires dir.Dir?
    ensures tree == Join(Lines(dir, prefix, ex), "\n")
    decreases dir
  {
    var entries: seq<string> := [];
    var items := SortByName(dir.children);
    SortByNameMembers(dir.children);
    for i := 0 to |items|
      invariant Join(entries, "\n") == Join(ItemLines(items[..i], prefix, ex, dir), "\n")
      invariant entries == [] <==> ItemLines(items[..i], prefix, ex, dir) == []
    {
      var item := items[i];
      assert item in dir.children;
      ghost var lines := ItemLines(items[..i], prefix, ex, dir);
      assert items[..i + 1][..i] == items[..i];
      assert ItemLines(items[..i + 1], prefix, ex, dir) == lines + ItemChunk(item, prefix, ex, dir);
      if item.Dir? {
        if ShouldExclude(item.name, true, ex) {
          assert lines + ItemChunk(item, prefix, ex, dir) == lines;
          continue;
        }
        var line := prefix + Branch + item.name + "/";
        var subtree := Recurse(item, prefix + Indent, ex);
        LinesNonEmpty(item, prefix + Indent, ex);
        AppendEntry(entries, lines, line, subtree, Lines(item, prefix + Indent, ex));
        assert lines + [line] + Lines(item, prefix + Indent, ex) == lines + ItemChunk(item, prefix, ex, dir);
        entries := entries + [line];
        if subtree != "" {
          entries := entries + [subtree];
        }
      } else {
        if ShouldExclude(item.name, false, ex) {
          assert lines + ItemChunk(item, prefix, ex, dir) == lines;
          continue;
        }
        var line := prefix + Branch + item.name;
        assert line == EntryLine(prefix, item.name, false);
        AppendEntry(entries, lines, line, "", []);
        assert lines + [line] + [] == lines + ItemChunk(item, prefix, ex, dir);
        entries := entries + [line];
      }
    }
    assert items[..|items|] == items;
    tree := Join(entries, "\n");
  }

  /** `generate_filtered_tree(path, exclude_dirs, exclude_files)`: a missing list falls back to its
      default. Listing a path that is not a directory fails, which yields `None`. */
  method GenerateFilteredTree(root: Node, excludeDirs: Option<seq<string>>, excludeFiles: Option<seq<string>>)
    returns (tree: Option<string>)
    ensures root.File? ==> tree.None?
    ensures root.Dir? ==>
      var dirs := if excludeDirs.Some? then excludeDirs.value else DefaultExcludeDirs;
      var files := if excludeFiles.Some? then excludeFiles.value else DefaultExcludeFiles;
      tree == Some(Join(Lines(root, "", Exclusions(dirs, files)), "\n"))
  {
    var dirs := DefaultExcludeDirs;
    if excludeDirs.Some? {
      dirs := excludeDirs.value;
    }
    var files := DefaultExcludeFiles;
    if excludeFiles.Some? {
      files := excludeFiles.value;
    }
    if root.File? {
      return None;
    }
    var text := Recurse(root, "", Exclusions(dirs, files));
    tree := Some(text);
  }

  // ---------------------------------------------------------------------------------------------
  // What the rendered lines stand for

  /** A rendered entry: the names of the directories leading to it from the rendered directory, its
      own name, and whether it is a directory. */
  datatype Entry = Entry(dirs: seq<string>, name: string, isDir: bool)

  /** `depth` copies of the indentation unit. */
  function Indentation(depth: nat): string
  {
    if depth == 0 then "" else Indent + Indentation(depth - 1)
  }

  /** The line of an entry in a tree rendered with `prefix`: one indentation unit per enclosing directory. */
  function Render(prefix: string, e: Entry): string
  {
    EntryLine(prefix + Indentation(|e.dirs|), e.name, e.isDir)
  }

  function RenderAll(prefix: string, es: seq<Entry>): seq<string>
  {
    seq(|es|, k requires 0 <= k < |es| => Render(prefix, es[k]))
  }

  /** The entries of `dir` seen from one level up, inside the directory called `name`. */
  function Nest(name: string, es: seq<Entry>): seq<Entry>
  {
    seq(|es|, k requires 0 <= k < |es| => Entry([name] + es[k].dirs, es[k].name, es[k].isDir))
  }

  /** The entries rendered for `dir`, in output order. */
  function Entries(dir: Node, ex: Exclusions): seq<Entry>
    requires dir.Dir?
    decreases dir
  {
    SortByNameMembers(dir.children);
    ItemEntries(SortByName(dir.children), ex, dir)
  }

  function ItemEntries(items: seq<Node>, ex: Exclusions, parent: Node): seq<Entry>
    requires parent.Dir? && forall i :: 0 <= i < |items| ==> items[i] in parent.children
    decreases parent, |items|
  {
    if items == [] then []
    else ItemEntries(items[..|items| - 1], ex, parent) + EntryChunk(items[|items| - 1], ex, parent)
  }

  function EntryChunk(item: Node, ex: Exclusions, parent: Node): seq<Entry>
    requires parent.Dir? && item in parent.children
    decreases parent, 0
  {
    if ShouldExclude(item.name, item.Dir?, ex) then []
    else if item.Dir? then [Entry([], item.name, true)] + Nest(item.name, Entries(item, ex))
    else [Entry([], item.name, false)]
  }

  /** Nesting an entry one directory deeper adds exactly one indentation unit to its line. */
  lemma RenderNest(prefix: string, name: string, es: seq<Entry>)
    ensures RenderAll(prefix, Nest(name, es)) == RenderAll(prefix + Indent, es)
  {
    forall k | 0 <= k < |es|
      ensures Render(prefix, Nest(name, es)[k]) == Render(prefix + Indent, es[k])
    {
      var e := es[k];
      assert |Nest(name, es)[k].dirs| == |e.dirs| + 1;
      assert prefix + Indentation(|e.dirs| + 1) == prefix + Indent + Indentation(|e.dirs|);
    }
  }

  /** Entry `k` of the rendered tree sits `|dirs|` directories deep, and its line is the prefix, one
      indentation unit per enclosing directory, the branch, and the name (with a '/' for a directory). */
  lemma {:induction false} LinesRenderEntries(dir: Node, prefix: string, ex: Exclusions)
    requires dir.Dir?
    ensures Lines(dir, prefix, ex) == RenderAll(prefix, Entries(dir, ex))
    decreases dir
  {
    SortByNameMembers(dir.children);
    ItemLinesRenderEntries(SortByName(dir.children), prefix, ex, dir);
  }

  lemma {:induction false} ItemLinesRenderEntries(items: seq<Node>, prefix: string, ex: Exclusions, parent: Node)
    requires parent.Dir? && forall i :: 0 <= i < |items| ==> items[i] in parent.children
    ensures ItemLines(items, prefix, ex, parent) == RenderAll(prefix, ItemEntries(items, ex, parent))
    decreases parent, |items|
  {
    if items != [] {
      var init := items[..|items| - 1];
      var item := items[|items| - 1];
      ItemLinesRenderEntries(init, prefix, ex, parent);
      ChunkRenderEntries(item, prefix, ex, parent);
      RenderAllAppend(prefix, ItemEntries(init, ex, parent), EntryChunk(item, ex, parent));
    }
  }

  lemma {:induction false} ChunkRenderEntries(item: Node, prefix: string, ex: Exclusions, parent: Node)
    requires parent.Dir? && item in parent.children
    ensures ItemChunk(item, prefix, ex, parent) == RenderAll(prefix, EntryChunk(item, ex, parent))
    decreases parent, 0
  {
    var chunk := EntryChunk(item, ex, parent);
    if !ShouldExclude(item.name, item.Dir?, ex) {
      if item.Dir? {
        LinesRenderEntries(item, prefix + Indent, ex);
        RenderNest(prefix, item.name, Entries(item, ex));
        RenderAllAppend(prefix, [Entry([], item.name, true)], Nest(item.name, Entries(item, ex)));
      }
      assert Render(prefix, chunk[0]) == EntryLine(prefix, item.name, item.Dir?);
    }
  }

  lemma RenderAllAppend(prefix: string, a: seq<Entry>, b: seq<Entry>)
    ensures RenderAll(prefix, a + b) == RenderAll(prefix, a) + RenderAll(prefix, b)
  {
  }

  /** The item of `dir` reached through the directories `dirs` and called `name` survives the
      exclusions, and so does every directory on the way to it. */
  ghost predicate Shown(dir: Node, dirs: seq<string>, name: string, isDir: bool, ex: Exclusions)
    requires dir.Dir?
    decreases dir
  {
    exists c :: c in dir.children && !ShouldExclude(c.name, c.Dir?, ex) &&
      (if dirs == [] then c.name == name && c.Dir? == isDir
       else c.Dir? && c.name == dirs[0] && Shown(c, dirs[1..], name, isDir, ex))
  }

  /** Every rendered entry is an item that is not excluded, below directories that are not excluded:
      nothing inside an excluded directory is ever rendered. */
  lemma {:induction false} EntriesSound(dir: Node, ex: Exclusions, e: Entry)
    requires dir.Dir? && e in Entries(dir, ex)
    ensures Shown(dir, e.dirs, e.name, e.isDir, ex)
    decreases dir
  {
    SortByNameMembers(dir.children);
    var c := ItemEntriesSound(SortByName(dir.children), ex, dir, e);
  }

  lemma {:induction false} ItemEntriesSound(items: seq<Node>, ex: Exclusions, parent: Node, e: Entry) returns (c: Node)
    requires parent.Dir? && forall i :: 0 <= i < |items| ==> items[i] in parent.children
    requires e in ItemEntries(items, ex, parent)
    ensures c in items && !ShouldExclude(c.name, c.Dir?, ex)
    ensures e.dirs == [] ==> c.name == e.name && c.Dir? == e.isDir
    ensures e.dirs != [] ==> c.Dir? && c.name == e.dirs[0] && Shown(c, e.dirs[1..], e.name, e.isDir, ex)
    decreases parent, |items|
  {
    var init := items[..|items| - 1];
    var item := items[|items| - 1];
    if e in ItemEntries(init, ex, parent) {
      c := ItemEntriesSound(init, ex, parent, e);
    } else {
      c := item;
      var chunk := EntryChunk(item, ex, parent);
      assert e in chunk;
      if e != chunk[0] {
        var nested := Nest(item.name, Entries(item, ex));
        var k :| 0 <= k < |nested| && nested[k] == e;
        var inner := Entries(item, ex)[k];
        EntriesSound(item, ex, inner);
        assert e.dirs[1..] == inner.dirs;
      }
    }
  }

  /** Every item that is not excluded, below directories that are not excluded, is rendered. */
  lemma {:induction false} EntriesComplete(dir: Node, dirs: seq<string>, name: string, isDir: bool, ex: Exclusions)
    requires dir.Dir? && Shown(dir, dirs, name, isDir, ex)
    ensures Entry(dirs, name, isDir) in Entries(dir, ex)
    decreases dir
  {
    var c :| c in dir.children && !ShouldExclude(c.name, c.Dir?, ex) &&
      (if dirs == [] then c.name == name && c.Dir? == isDir
       else c.Dir? && c.name == dirs[0] && Shown(c, dirs[1..], name, isDir, ex));
    ChildChunkRendered(dir, c, ex);
    var chunk := EntryChunk(c, ex, dir);
    if dirs == [] {
      assert chunk[0] == Entry(dirs, name, isDir);
    } else {
      EntriesComplete(c, dirs[1..], name, isDir, ex);
      NestHas(c.name, Entries(c, ex), Entry(dirs[1..], name, isDir));
      assert [dirs[0]] + dirs[1..] == dirs;
      assert Entry(dirs, name, isDir) in chunk;
    }
  }

  /** What a child of `dir` contributes is among the entries rendered for `dir`. */
  lemma ChildChunkRendered(dir: Node, c: Node, ex: Exclusions)
    requires dir.Dir? && c in dir.children
    ensures forall e :: e in EntryChunk(c, ex, dir) ==> e in Entries(dir, ex)
  {
    SortByNameMembers(dir.children);
    var items := SortByName(dir.children);
    var k :| 0 <= k < |items| && items[k] == c;
    ItemEntriesHasChunk(items, k, ex, dir);
  }

  lemma NestHas(name: string, es: seq<Entry>, e: Entry)
    requires e in es
    ensures Entry([name] + e.dirs, e.name, e.isDir) in Nest(name, es)
  {
    var j :| 0 <= j < |es| && es[j] == e;
    assert Nest(name, es)[j] == Entry([name] + e.dirs, e.name, e.isDir);
  }

  /** Everything one item contributes is among what the whole listing contributes. */
  lemma {:induction false} ItemEntriesHasChunk(items: seq<Node>, k: nat, ex: Exclusions, parent: Node)
    requires parent.Dir? && forall i :: 0 <= i < |items| ==> items[i] in parent.children
    requires k < |items|
    ensures forall e :: e in EntryChunk(items[k], ex, parent) ==> e in ItemEntries(items, ex, parent)
    decreases |items|
  {
    var init := items[..|items| - 1];
    if k < |items| - 1 {
      ItemEntriesHasChunk(init, k, ex, parent);
      assert init[k] == items[k];
    }
  }

  /** Rendered entries are either one item's own entry, directly in the rendered directory, or lie inside
      one of its sub-directories. */
  lemma ChunkShape(item: Node, ex: Exclusions, parent: Node)
    requires parent.Dir? && item in parent.children
    ensures var chunk := EntryChunk(item, ex, parent);
      (chunk != [] ==> chunk[0] == Entry([], item.name, item.Dir?)) &&
      forall k :: 0 < k < |chunk| ==> chunk[k].dirs != [] && chunk[k].dirs[0] == item.name
  {
    var chunk := EntryChunk(item, ex, parent);
    forall k | 0 < k < |chunk|
      ensures chunk[k].dirs != [] && chunk[k].dirs[0] == item.name
    {
      assert chunk[k] == Nest(item.name, Entries(item, ex))[k - 1];
    }
  }

  /** The entries directly in the rendered directory come out in sorted name order. */
  lemma TopLevelSorted(dir: Node, ex: Exclusions)
    requires dir.Dir?
    ensures forall k, m ::
      (0 <= k < m < |Entries(dir, ex)| && Entries(dir, ex)[k].dirs == [] && Entries(dir, ex)[m].dirs == []) ==>
      NameLe(Entries(dir, ex)[k].name, Entries(dir, ex)[m].name)
  {
    SortByNameSpec(dir.children);
    SortByNameMembers(dir.children);
    ItemEntriesSorted(SortByName(dir.children), ex, dir);
  }

  lemma {:induction false} ItemEntriesSorted(items: seq<Node>, ex: Exclusions, parent: Node)
    requires parent.Dir? && forall i :: 0 <= i < |items| ==> items[i] in parent.children
    requires SortedByName(items)
    ensures forall k :: 0 <= k < |ItemEntries(items, ex, parent)| && ItemEntries(items, ex, parent)[k].dirs == [] ==>
      exists j :: 0 <= j < |items| && items[j].name == ItemEntries(items, ex, parent)[k].name
    ensures forall k, m ::
      (0 <= k < m < |ItemEntries(items, ex, parent)| &&
       ItemEntries(items, ex, parent)[k].dirs == [] && ItemEntries(items, ex, parent)[m].dirs == []) ==>
      NameLe(ItemEntries(items, ex, parent)[k].name, ItemEntries(items, ex, parent)[m].name)
    decreases |items|
  {
    if items != [] {
      var n := |items| - 1;
      var init := items[..n];
      var item := items[n];
      assert SortedByName(init) by {
        forall i, j | 0 <= i < j < |init|
          ensures NameLe(init[i].name, init[j].name)
        {
          assert init[i] == items[i] && init[j] == items[j];
        }
      }
      ItemEntriesSorted(init, ex, parent);
      ChunkShape(item, ex, parent);
      var before := ItemEntries(init, ex, parent);
      var chunk := EntryChunk(item, ex, parent);
      var es := before + chunk;
      assert ItemEntries(items, ex, parent) == es;
      forall k | 0 <= k < |es| && es[k].dirs == []
        ensures exists j :: 0 <= j < |items| && items[j].name == es[k].name
      {
        if k < |before| {
          assert es[k] == before[k];
          var j :| 0 <= j < |init| && init[j].name == before[k].name;
          assert items[j] == init[j];
        } else {
          assert k == |before|;
          assert items[n].name == es[k].name;
        }
      }
      forall k, m | 0 <= k < m < |es| && es[k].dirs == [] && es[m].dirs == []
        ensures NameLe(es[k].name, es[m].name)
      {
        assert es[k] == before[k];
        if m < |before| {
          assert es[m] == before[m];
        } else {
          assert m == |before| && es[m].name == item.name;
          var j :| 0 <= j < |init| && init[j].name == before[k].name;
          assert items[j] == init[j];
        }
      }
    }
  }

  /** A directory renders no line exactly when every one of its entries is excluded. */
  lemma LinesEmpty(dir: Node, prefix: string, ex: Exclusions)
    requires dir.Dir?
    ensures Lines(dir, prefix, ex) == [] <==> forall c :: c in dir.children ==> ShouldExclude(c.name, c.Dir?, ex)
  {
    SortByNameMembers(dir.children);
    var items := SortByName(dir.children);
    ItemLinesEmpty(items, prefix, ex, dir);
    if Lines(dir, prefix, ex) != [] {
      var i :| 0 <= i < |items| && !ShouldExclude(items[i].name, items[i].Dir?, ex);
      assert items[i] in dir.children;
    }
  }

  lemma {:induction false} ItemLinesEmpty(items: seq<Node>, prefix: string, ex: Exclusions, parent: Node)
    requires parent.Dir? && forall i :: 0 <= i < |items| ==> items[i] in parent.children
    ensures ItemLines(items, prefix, ex, parent) == [] <==>
      forall i :: 0 <= i < |items| ==> ShouldExclude(items[i].name, items[i].Dir?, ex)
    decreases |items|
  {
    if items != [] {
      var init := items[..|items| - 1];
      ItemLinesEmpty(init, prefix, ex, parent);
      if forall i :: 0 <= i < |init| ==> ShouldExclude(init[i].name, init[i].Dir?, ex) {
        forall i | 0 <= i < |items| - 1
          ensures ShouldExclude(items[i].name, items[i].Dir?, ex)
        {
          assert items[i] == init[i];
        }
      } else {
        var i :| 0 <= i < |init| && !ShouldExclude(init[i].name, init[i].Dir?, ex);
        assert items[i] == init[i];
      }
    }
  }

  /** A sub-directory that survives the exclusions gets its own line even when nothing inside it does,
      and then contributes that line alone. */
  lemma EmptySubdirectoryLine(item: Node, prefix: string, ex: Exclusions, parent: Node)
    requires parent.Dir? && item in parent.children && item.Dir? && !ShouldExclude(item.name, true, ex)
    requires forall c :: c in item.children ==> ShouldExclude(c.name, c.Dir?, ex)
    ensures ItemChunk(item, prefix, ex, parent) == [prefix + Branch + item.name + "/"]
  {
    LinesEmpty(item, prefix + Indent, ex);
  }

  /** The text `generate_filtered_tree` returns for a directory: "" exactly when every entry of the
      directory is excluded, and otherwise the lines joined by single newlines, ending with the last
      line and no newline after it. */
  lemma TreeText(root: Node, ex: Exclusions)
    requires root.Dir?
    ensures var lines := Lines(root, "", ex);
      var text := Join(lines, "\n");
      (text == "" <==> forall c :: c in root.children ==> ShouldExclude(c.name, c.Dir?, ex)) &&
      (lines != [] ==> EndsWith(text, lines[|lines| - 1]))
  {
    var lines := Lines(root, "", ex);
    LinesNonEmpty(root, "", ex);
    JoinEmpty(lines, "\n");
    JoinEnds(lines, "\n");
    LinesEmpty(root, "", ex);
  }

  /** An entry is rendered exactly when it and every directory above it survive the exclusions. */
  lemma RenderedExactly(root: Node, ex: Exclusions, e: Entry)
    requires root.Dir?
    ensures e in Entries(root, ex) <==> Shown(root, e.dirs, e.name, e.isDir, ex)
  {
    if e in Entries(root, ex) {
      EntriesSound(root, ex, e);
    }
    if Shown(root, e.dirs, e.name, e.isDir, ex) {
      EntriesComplete(root, e.dirs, e.name, e.isDir, ex);
    }
  }
}
