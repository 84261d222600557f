/** project-sum.py: collect the files of a project tree whose names end with one of the requested
    extensions, clean C# files of their `using` lines and of everything before the namespace, and
    concatenate them, each under a header naming its path relative to the root. */
module ProjectSum {
  import opened Wrappers
  import opened Seqs
  import opened Text
  import opened FileTree

  /** The byte-order mark as a character, which `clean_code` strips before looking for `using `. */
  const Bom: char := '\U{FEFF}'

  // ---------------------------------------------------------------------------------------------
  // clean_code

  /** A C# import line: once leading BOMs and then leading whitespace are stripped, it starts with "using ". */
  predicate IsUsingLine(line: string)
  {
    StartsWith(LStrip(LStrip(line, {Bom}), Whitespace), "using ")
  }

  predicate KeepsLine(line: string)
  {
    !IsUsingLine(line)
  }

  /** A namespace line: once leading whitespace (but not a BOM) is stripped, it starts with "namespace". */
  predicate IsNamespaceLine(line: string)
  {
    StartsWith(LStrip(line, Whitespace), "namespace")
  }

  /** The lines of a C# file that are not imports, in their original order. */
  function DropUsings(lines: seq<string>): seq<string>
  {
    Filter(lines, KeepsLine)
  }

  predicate HasNamespaceLine(lines: seq<string>)
  {
    exists j :: 0 <= j < |lines| && IsNamespaceLine(lines[j])
  }

  /** The lines a C# file keeps: its non-import lines from the first namespace line on, or all of
      them when no non-import line is a namespace line. */
  function CsKept(lines: seq<string>): seq<string>
  {
    var filtered := DropUsings(lines);
    FirstIndexSpec(filtered, IsNamespaceLine);
    match FirstIndex(filtered, IsNamespaceLine)
    case None => filtered
    case Some(i) => filtered[i..]
  }

  /** What a C# file keeps: no import line survives; what survives is a suffix of the non-import lines
      that starts at the first namespace line among them, or all of them when there is none. */
  lemma CsKeptSpec(lines: seq<string>)
    ensures var r := CsKept(lines);
      forall i :: 0 <= i < |r| ==> !IsUsingLine(r[i])
    ensures var r, f := CsKept(lines), DropUsings(lines);
      |r| <= |f| && r == f[|f| - |r|..] &&
      (forall j :: 0 <= j < |f| - |r| ==> !IsNamespaceLine(f[j])) &&
      (HasNamespaceLine(f) ==> r != [] && IsNamespaceLine(r[0])) &&
      (!HasNamespaceLine(f) ==> r == f)
  {
    var f := DropUsings(lines);
    FilterSpec(lines, KeepsLine);
    FirstIndexSpec(f, IsNamespaceLine);
    assert forall i :: 0 <= i < |f| ==> KeepsLine(f[i]);
    match FirstIndex(f, IsNamespaceLine)
    case None =>
      assert CsKept(lines) == f;
    case Some(i) =>
      assert CsKept(lines) == f[i..];
      assert |f| - |f[i..]| == i;
  }

  predicate IsCSharp(extension: string)
  {
    Lower(extension) == ".cs"
  }

  /** What `clean_code` returns for a file whose `readlines()` gave `content` (`None`: it could not be
      read), when processed under `extension`. */
  function Cleaned(content: Option<seq<string>>, extension: string): Option<string>
  {
    match content
    case None => None
    case Some(lines) =>
      if IsCSharp(extension) then Some(Concat(CsKept(lines))) else Some(Concat(lines))
  }

  /** Cleaning fails exactly when the read fails; a file of any other kind than C# comes back as the
      plain concatenation of its lines. */
  lemma CleanedSpec(content: Option<seq<string>>, extension: string)
    ensures Cleaned(content, extension).None? <==> content.None?
    ensures content.Some? && !IsCSharp(extension) ==> Cleaned(content, extension) == Some(Concat(content.value))
  {
  }

  /** `clean_code(file_path, extension)`, with the read replaced by its outcome `content`. */
  method CleanCode(content: Option<seq<string>>, extension: string) returns (cleaned: Option<string>)
    ensures cleaned == Cleaned(content, extension)
  {
    if content.None? {
      return None;
    }
    var lines := content.value;
    if Lower(extension) == ".cs" {
      var filteredLines := DropUsings(lines);
      var namespaceIndex: Option<nat> := None;
      for idx := 0 to |filteredLines|
        invariant namespaceIndex.None?
        invariant forall j :: 0 <= j < idx ==> !IsNamespaceLine(filteredLines[j])
      {
        if IsNamespaceLine(filteredLines[idx]) {
          namespaceIndex := Some(idx);
          break;
        }
      }
      FirstIndexSpec(filteredLines, IsNamespaceLine);
      assert namespaceIndex == FirstIndex(filteredLines, IsNamespaceLine);
      if namespaceIndex.Some? {
        filteredLines := filteredLines[namespaceIndex.value..];
      }
      cleaned := Some(Concat(filteredLines));
    } else {
      cleaned := Some(Concat(lines));
    }
  }

  /** Import filtering works line by line: splitting the input anywhere splits the output at the same place. */
  lemma DropUsingsAppend(a: seq<string>, b: seq<string>)
    ensures DropUsings(a + b) == DropUsings(a) + DropUsings(b)
    ensures DropUsings([]) == []
    ensures forall l :: DropUsings([l]) == if IsUsingLine(l) then [] else [l]
  {
    FilterAppend(a, b, KeepsLine);
    forall l
      ensures DropUsings([l]) == if IsUsingLine(l) then [] else [l]
    {
      assert [l][1..] == [];
      assert DropUsings([]) == [];
    }
  }

  // ---------------------------------------------------------------------------------------------
  // summarize_project_code: the walk

  const ExcludedDirNames: set<string> := {"bin", "obj", "resources", "assets"}
  const AutoGeneratedSuffixes: set<string> := {".droid", ".winui"}

  /** A directory `os.walk` is not allowed to descend into (compared after lower-casing). */
  predicate IsExcludedDir(name: string)
  {
    Lower(name) in ExcludedDirNames || exists suffix :: suffix in AutoGeneratedSuffixes && EndsWith(Lower(name), suffix)
  }

  predicate KeepsDir(d: Node)
  {
    !IsExcludedDir(d.name)
  }

  /** `dirs[:] = [d for d in dirs if ...]`: the sub-directories the walk goes on into. */
  function Prune(dirs: seq<Node>): seq<Node>
  {
    Filter(dirs, KeepsDir)
  }

  /** The sub-directories the walk enters are children of the directory and are not excluded. */
  lemma PruneSpec(children: seq<Node>)
    ensures var r := Prune(SubDirs(children));
      forall i :: 0 <= i < |r| ==> r[i] in children && r[i].Dir? && !IsExcludedDir(r[i].name)
  {
    SubDirsSpec(children);
    FilterSpec(SubDirs(children), KeepsDir);
  }

  /** A file the walk reports: the directory names from the root down to it, its name and its content. */
  datatype Candidate = Candidate(dirs: seq<string>, name: string, content: Option<seq<string>>)

  function FileCandidates(files: seq<Node>, path: seq<string>): (r: seq<Candidate>)
    requires forall i :: 0 <= i < |files| ==> files[i].File?
  {
    seq(|files|, i requires 0 <= i < |files| => Candidate(path, files[i].name, files[i].content))
  }

  /** The files `os.walk(top)` visits under directory `dir`, reached through `path`: the directory's own
      files first, then, in listing order, those under each sub-directory that survives pruning. */
  function Walk(dir: Node, path: seq<string>): seq<Candidate>
    requires dir.Dir?
    decreases dir
  {
    FilesSpec(dir.children);
    PruneSpec(dir.children);
    FileCandidates(Files(dir.children), path) + WalkAll(Prune(SubDirs(dir.children)), path, dir)
  }

  function WalkAll(ds: seq<Node>, path: seq<string>, parent: Node): seq<Candidate>
    requires parent.Dir? && forall i :: 0 <= i < |ds| ==> ds[i] in parent.children && ds[i].Dir?
    decreases parent, |ds|
  {
    if ds == [] then [] else Walk(ds[0], path + [ds[0].name]) + WalkAll(ds[1..], path, parent)
  }

  lemma {:induction false} WalkAllSnoc(ds: seq<Node>, path: seq<string>, parent: Node)
    requires parent.Dir? && forall i :: 0 <= i < |ds| ==> ds[i] in parent.children && ds[i].Dir?
    requires ds != []
    ensures WalkAll(ds, path, parent) ==
      WalkAll(ds[..|ds| - 1], path, parent) + Walk(ds[|ds| - 1], path + [ds[|ds| - 1].name])
  {
    if |ds| == 1 {
      assert ds[..0] == [];
    } else {
      assert ds[1..][..|ds| - 2] == ds[..|ds| - 1][1..];
      WalkAllSnoc(ds[1..], path, parent);
    }
  }

  /** There is a file `name` with `content` under `dir`, reached through the directories `dirs`. */
  ghost predicate InTree(dir: Node, dirs: seq<string>, name: string, content: Option<seq<string>>)
    requires dir.Dir?
    decreases dir
  {
    if dirs == [] then File(name, content) in dir.children
    else exists d :: d in dir.children && d.Dir? && d.name == dirs[0] && InTree(d, dirs[1..], name, content)
  }

  ghost predicate NoneExcluded(dirs: seq<string>)
  {
    forall k :: 0 <= k < |dirs| ==> !IsExcludedDir(dirs[k])
  }

  /** Every file the walk reports lies under `dir` and below no excluded directory. */
  lemma {:induction false} WalkSound(dir: Node, path: seq<string>, c: Candidate)
    requires dir.Dir? && c in Walk(dir, path)
    ensures |path| <= |c.dirs| && c.dirs[..|path|] == path
    ensures InTree(dir, c.dirs[|path|..], c.name, c.content) && NoneExcluded(c.dirs[|path|..])
    decreases dir
  {
    var files := Files(dir.children);
    var ds := Prune(SubDirs(dir.children));
    FilesSpec(dir.children);
    PruneSpec(dir.children);
    if c in FileCandidates(files, path) {
      var i :| 0 <= i < |files| && FileCandidates(files, path)[i] == c;
      assert files[i] == File(c.name, c.content);
      assert c.dirs[|path|..] == [];
    } else {
      assert c in WalkAll(ds, path, dir);
      WalkAllSound(ds, path, dir, c);
    }
  }

  lemma {:induction false} WalkAllSound(ds: seq<Node>, path: seq<string>, parent: Node, c: Candidate)
    requires parent.Dir? && forall i :: 0 <= i < |ds| ==> ds[i] in parent.children && ds[i].Dir?
    requires forall i :: 0 <= i < |ds| ==> !IsExcludedDir(ds[i].name)
    requires c in WalkAll(ds, path, parent)
    ensures |path| <= |c.dirs| && c.dirs[..|path|] == path
    ensures InTree(parent, c.dirs[|path|..], c.name, c.content) && NoneExcluded(c.dirs[|path|..])
    decreases parent, |ds|
  {
    var d := ds[0];
    if c in Walk(d, path + [d.name]) {
      WalkSound(d, path + [d.name], c);
      var rel := c.dirs[|path|..];
      assert rel[0] == d.name && rel[1..] == c.dirs[|path| + 1..];
      assert InTree(parent, rel, c.name, c.content);
    } else {
      WalkAllSound(ds[1..], path, parent, c);
    }
  }

  /** Every file under `dir` that lies below no excluded directory is reported by the walk. */
  lemma {:induction false} WalkComplete(dir: Node, path: seq<string>, rel: seq<string>, name: string, content: Option<seq<string>>)
    requires dir.Dir? && InTree(dir, rel, name, content) && NoneExcluded(rel)
    ensures Candidate(path + rel, name, content) in Walk(dir, path)
    decreases dir
  {
    if rel == [] {
      assert path + rel == path;
      FileReported(dir, path, File(name, content));
    } else {
      var d :| d in dir.children && d.Dir? && d.name == rel[0] && InTree(d, rel[1..], name, content);
      assert NoneExcluded(rel[1..]) by {
        forall k | 0 <= k < |rel[1..]| ensures !IsExcludedDir(rel[1..][k]) {
          assert rel[1..][k] == rel[k + 1];
        }
      }
      WalkComplete(d, path + [d.name], rel[1..], name, content);
      assert path + [d.name] + rel[1..] == path + rel;
      SubDirWalked(dir, path, d);
    }
  }

  /** Each file directly in `dir` is reported with the path of `dir`. */
  lemma FileReported(dir: Node, path: seq<string>, f: Node)
    requires dir.Dir? && f in dir.children && f.File?
    ensures Candidate(path, f.name, f.content) in Walk(dir, path)
  {
    var files := Files(dir.children);
    FilesSpec(dir.children);
    var k :| 0 <= k < |dir.children| && dir.children[k] == f;
    FilterKeeps(dir.children, IsFile, k);
    var i :| 0 <= i < |files| && files[i] == f;
    assert FileCandidates(files, path)[i] == Candidate(path, f.name, f.content);
  }

  /** Everything the walk reports under a sub-directory that is not excluded, it reports under `dir`. */
  lemma SubDirWalked(dir: Node, path: seq<string>, d: Node)
    requires dir.Dir? && d in dir.children && d.Dir? && !IsExcludedDir(d.name)
    ensures forall c :: c in Walk(d, path + [d.name]) ==> c in Walk(dir, path)
  {
    var ds := Prune(SubDirs(dir.children));
    PruneSpec(dir.children);
    var k :| 0 <= k < |dir.children| && dir.children[k] == d;
    FilterKeeps(dir.children, IsDir, k);
    var subDirs := SubDirs(dir.children);
    var m :| 0 <= m < |subDirs| && subDirs[m] == d;
    FilterKeeps(subDirs, KeepsDir, m);
    var i :| 0 <= i < |ds| && ds[i] == d;
    WalkAllContains(ds, path, dir, i);
    FilesSpec(dir.children);
    assert Walk(dir, path) == FileCandidates(Files(dir.children), path) + WalkAll(ds, path, dir);
  }

  lemma {:induction false} WalkAllContains(ds: seq<Node>, path: seq<string>, parent: Node, i: nat)
    requires parent.Dir? && forall j :: 0 <= j < |ds| ==> ds[j] in parent.children && ds[j].Dir?
    requires i < |ds|
    ensures forall c :: c in Walk(ds[i], path + [ds[i].name]) ==> c in WalkAll(ds, path, parent)
    decreases |ds|
  {
    if i > 0 {
      WalkAllContains(ds[1..], path, parent, i - 1);
    }
  }

  /** The walk from the root visits exactly the files that lie below no excluded directory; the root
      itself is never tested, as `os.walk` reports its top directory unconditionally. */
  lemma WalkVisitsExactly(root: Node, c: Candidate)
    requires root.Dir?
    ensures c in Walk(root, []) <==> InTree(root, c.dirs, c.name, c.content) && NoneExcluded(c.dirs)
  {
    if c in Walk(root, []) {
      WalkSound(root, [], c);
      assert c.dirs[0..] == c.dirs;
    }
    if InTree(root, c.dirs, c.name, c.content) && NoneExcluded(c.dirs) {
      WalkComplete(root, [], c.dirs, c.name, c.content);
      assert [] + c.dirs == c.dirs;
    }
  }

  // ---------------------------------------------------------------------------------------------
  // summarize_project_code: the fragments

  /** `file.lower().endswith(ext.lower())`. */
  predicate MatchesExtension(name: string, ext: string)
  {
    EndsWith(Lower(name), Lower(ext))
  }

  /** The position in `extensions` of the first extension the file name matches. */
  function FirstMatch(name: string, extensions: seq<string>): Option<nat>
  {
    FirstIndex(extensions, (ext: string) => MatchesExtension(name, ext))
  }

  /** The extension chosen is the first one in the caller's list that the file name matches. */
  lemma FirstMatchSpec(name: string, extensions: seq<string>)
    ensures var r := FirstMatch(name, extensions);
      (r.Some? ==> r.value < |extensions| && MatchesExtension(name, extensions[r.value]) &&
                   forall j :: 0 <= j < r.value ==> !MatchesExtension(name, extensions[j])) &&
      (r.None? ==> forall j :: 0 <= j < |extensions| ==> !MatchesExtension(name, extensions[j]))
  {
    FirstIndexSpec(extensions, (ext: string) => MatchesExtension(name, ext));
  }

  /** The path relative to the root, with '/' between the components. */
  function RelPath(dirs: seq<string>, name: string): string
  {
    Join(dirs + [name], "/")
  }

  function Header(relPath: string): string
  {
    "=============\n" + relPath + "\n-------------\n"
  }

  /** The fragment a file contributes: nothing when no extension matches or it cannot be read,
      otherwise the header and the text cleaned for the first matching extension. */
  function FragmentFor(c: Candidate, extensions: seq<string>): Option<string>
  {
    FirstMatchSpec(c.name, extensions);
    match FirstMatch(c.name, extensions)
    case None => None
    case Some(j) =>
      match Cleaned(c.content, extensions[j])
      case None => None
      case Some(body) => Some(Header(RelPath(c.dirs, c.name)) + body + "\n")
  }

  /** A file contributes a fragment exactly when it can be read and some extension matches; the
      fragment is the header, the file cleaned for the first matching extension, and a newline. */
  lemma FragmentForSpec(c: Candidate, extensions: seq<string>)
    ensures FragmentFor(c, extensions).Some? <==>
      c.content.Some? && exists j :: 0 <= j < |extensions| && MatchesExtension(c.name, extensions[j])
    ensures FragmentFor(c, extensions).Some? ==>
      FirstMatch(c.name, extensions).Some? &&
      var j := FirstMatch(c.name, extensions).value;
      j < |extensions| &&
      FragmentFor(c, extensions).value ==
        "=============\n" + Join(c.dirs + [c.name], "/") + "\n-------------\n"
        + Cleaned(c.content, extensions[j]).value + "\n"
  {
    FirstMatchSpec(c.name, extensions);
  }

  function FragmentList(c: Candidate, extensions: seq<string>): seq<string>
  {
    match FragmentFor(c, extensions)
    case None => []
    case Some(f) => [f]
  }

  /** `output_parts` after the walk has reported the files `cs`. */
  function Fragments(cs: seq<Candidate>, extensions: seq<string>): seq<string>
  {
    if cs == [] then [] else FragmentList(cs[0], extensions) + Fragments(cs[1..], extensions)
  }

  /** Each file contributes at most one fragment. */
  lemma {:induction false} FragmentsAtMostOnePerFile(cs: seq<Candidate>, extensions: seq<string>)
    ensures |Fragments(cs, extensions)| <= |cs|
  {
    if cs != [] {
      FragmentsAtMostOnePerFile(cs[1..], extensions);
    }
  }

  /** The output for two runs of files is the output for the first followed by the output for the second. */
  lemma {:induction false} FragmentsAppend(a: seq<Candidate>, b: seq<Candidate>, extensions: seq<string>)
    ensures Fragments(a + b, extensions) == Fragments(a, extensions) + Fragments(b, extensions)
  {
    if a == [] {
      assert a + b == b;
    } else {
      assert (a + b)[0] == a[0];
      assert (a + b)[1..] == a[1..] + b;
      FragmentsAppend(a[1..], b, extensions);
      assert Fragments(a + b, extensions) == FragmentList(a[0], extensions) + Fragments(a[1..] + b, extensions);
    }
  }

  lemma FragmentsSingleton(c: Candidate, extensions: seq<string>)
    ensures Fragments([c], extensions) == FragmentList(c, extensions)
  {
    assert [c][1..] == [];
  }

  /** A file that cannot be read contributes nothing, and the files after it are processed as if it
      were not there. */
  lemma UnreadableSkipped(before: seq<Candidate>, c: Candidate, after: seq<Candidate>, extensions: seq<string>)
    requires c.content.None?
    ensures Fragments(before + [c] + after, extensions) == Fragments(before + after, extensions)
  {
    assert Cleaned(c.content, "") == None;
    assert FragmentList(c, extensions) == [];
    FragmentsSingleton(c, extensions);
    FragmentsAppend(before, [c], extensions);
    assert Fragments(before + [c], extensions) == Fragments(before, extensions);
    FragmentsAppend(before + [c], after, extensions);
    FragmentsAppend(before, after, extensions);
  }

  /** The body of the `for file in files` loop: the extensions are tried in order; the first match
      whose cleaning succeeds yields the fragment and ends the search, while a failed read moves on
      to the next extension. */
  method SummarizeFile(path: seq<string>, name: string, content: Option<seq<string>>, extensions: seq<string>)
    returns (fragment: seq<string>)
    ensures fragment == FragmentList(Candidate(path, name, content), extensions)
  {
    fragment := [];
    FirstMatchSpec(name, extensions);
    for j := 0 to |extensions|
      invariant fragment == []
      invariant forall k :: 0 <= k < j && MatchesExtension(name, extensions[k]) ==> content.None?
    {
      if MatchesExtension(name, extensions[j]) {
        var relPath := RelPath(path, name);
        var cleanedCode := CleanCode(content, extensions[j]);
        CleanedSpec(content, extensions[j]);
        if cleanedCode.None? {
          continue;
        }
        var header := Header(relPath);
        fragment := [header + cleanedCode.value + "\n"];
        assert FirstMatch(name, extensions) == Some(j);
        return;
      }
    }
  }

  /** The `for file in files` loop of `summarize_project_code` for one directory reached through `path`. */
  method SummarizeFiles(files: seq<Node>, path: seq<string>, extensions: seq<string>) returns (parts: seq<string>)
    requires forall i :: 0 <= i < |files| ==> files[i].File?
    ensures parts == Fragments(FileCandidates(files, path), extensions)
  {
    parts := [];
    for i := 0 to |files|
      invariant parts == Fragments(FileCandidates(files[..i], path), extensions)
    {
      var fragment := SummarizeFile(path, files[i].name, files[i].content, extensions);
      ghost var c := Candidate(path, files[i].name, files[i].content);
      FileCandidatesSnoc(files, i, path);
      FragmentsAppend(FileCandidates(files[..i], path), [c], extensions);
      FragmentsSingleton(c, extensions);
      parts := parts + fragment;
    }
    assert files[..|files|] == files;
  }

  lemma FileCandidatesSnoc(files: seq<Node>, i: nat, path: seq<string>)
    requires forall j :: 0 <= j < |files| ==> files[j].File?
    requires i < |files|
    ensures FileCandidates(files[..i + 1], path) ==
      FileCandidates(files[..i], path) + [Candidate(path, files[i].name, files[i].content)]
  {
    assert files[..i + 1] == files[..i] + [files[i]];
  }

  /** The walk below the directory `dir` reached through `path`: the files of the directory, then,
      after pruning, each sub-directory in turn, as `os.walk` visits them top-down. */
  method SummarizeDir(dir: Node, path: seq<string>, extensions: seq<string>) returns (parts: seq<string>)
    requires dir.Dir?
    ensures parts == Fragments(Walk(dir, path), extensions)
    decreases dir
  {
    var dirs := SubDirs(dir.children);
    dirs := Prune(dirs);
    var files := Files(dir.children);
    FilesSpec(dir.children);
    PruneSpec(dir.children);
    var fileParts := SummarizeFiles(files, path, extensions);
    var dirParts := SummarizeSubDirs(dirs, path, dir, extensions);
    parts := fileParts + dirParts;
    FragmentsAppend(FileCandidates(files, path), WalkAll(dirs, path, dir), extensions);
  }

  /** The sub-directories `ds` of `parent` that survived pruning, walked one after the other. */
  method SummarizeSubDirs(ds: seq<Node>, path: seq<string>, parent: Node, extensions: seq<string>)
    returns (parts: seq<string>)
    requires parent.Dir? && forall i :: 0 <= i < |ds| ==> ds[i] in parent.children && ds[i].Dir?
    ensures parts == Fragments(WalkAll(ds, path, parent), extensions)
    decreases parent, |ds|
  {
    parts := [];
    for i := 0 to |ds|
      invariant parts == Fragments(WalkAll(ds[..i], path, parent), extensions)
    {
      var sub := SummarizeDir(ds[i], path + [ds[i].name], extensions);
      ghost var done := WalkAll(ds[..i], path, parent);
      assert ds[..i + 1][..i] == ds[..i];
      WalkAllSnoc(ds[..i + 1], path, parent);
      FragmentsAppend(done, Walk(ds[i], path + [ds[i].name]), extensions);
      parts := parts + sub;
    }
    assert ds[..|ds|] == ds;
  }

  /** `summarize_project_code(base_path, extensions)`: the fragments of every file the walk reports,
      concatenated in walk order. A base that is not a directory yields nothing, as `os.walk` does. */
  method SummarizeProjectCode(base: Node, extensions: seq<string>) returns (output: string)
    ensures output == Concat(Fragments(if base.Dir? then Walk(base, []) else [], extensions))
  {
    var outputParts: seq<string> := [];
    if base.Dir? {
      outputParts := SummarizeDir(base, [], extensions);
    }
    output := Concat(outputParts);
  }
}
