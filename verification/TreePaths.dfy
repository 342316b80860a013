/** The entry, file or directory, that a path leads to. */
module TreePaths {
  import opened Names
  import opened FsObjects
  import opened DirJoin

  /** The entry, file or directory, at a path below a directory. */
  function EntryAt(es: seq<Dirent>, path: Path): Option<Dirent>
    decreases |path|
  {
    if path == [] then None
    else if |path| == 1 then Lookup(es, path[0])
    else EntryAt(SubDir(Lookup(es, path[0])), path[1..])
  }

  lemma EntrySplits(es: seq<Dirent>, path: Path)
    requires path != []
    ensures EntryAt(es, path) == if |path| == 1 then Lookup(es, path[0]) else EntryAt(SubDir(Lookup(es, path[0])), path[1..])
  {
  }

  lemma NothingBelow(path: Path)
    requires path != []
    ensures EntryAt([], path) == None
    decreases |path|
  {
    if |path| > 1 { NothingBelow(path[1..]); }
  }
}
