/** The filesystem as plain data: what `os.walk`, `os.listdir`, `os.path.isdir` and `open(...).readlines()`
    would observe under a directory. */
module FileTree {
  import opened Wrappers
  import opened Seqs

  /** A directory entry. A file carries the lines reading it yields, or `None` when opening or
      decoding it fails. A directory's children are in listing order. */
  datatype Node =
    | File(name: string, content: Option<seq<string>>)
    | Dir(name: string, children: seq<Node>)

  predicate IsFile(n: Node)
  {
    n.File?
  }

  predicate IsDir(n: Node)
  {
    n.Dir?
  }

  /** The entries `os.walk` reports as files of a directory, in listing order. */
  function Files(children: seq<Node>): seq<Node>
  {
    Filter(children, IsFile)
  }

  /** The entries `os.walk` reports as sub-directories of a directory, in listing order. */
  function SubDirs(children: seq<Node>): seq<Node>
  {
    Filter(children, IsDir)
  }

  lemma FilesSpec(children: seq<Node>)
    ensures var r := Files(children);
      forall i :: 0 <= i < |r| ==> r[i] in children && r[i].File?
  {
    FilterSpec(children, IsFile);
  }

  lemma SubDirsSpec(children: seq<Node>)
    ensures var r := SubDirs(children);
      forall i :: 0 <= i < |r| ==> r[i] in children && r[i].Dir?
  {
    FilterSpec(children, IsDir);
  }
}
